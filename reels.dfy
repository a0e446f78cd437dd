/**
  The rotating reel selection of `loadRandomReels`: on every call the
  manifest is split into fresh videos (not on screen) and stale videos
  (on screen), both lists are shuffled, three videos are picked with
  fresh ones first, their ids become the new on-screen set, and each of
  the three page slots that received a video gets an Instagram embed.
*/
module Reels {
  import opened Wrappers

  /** Number of display slots on the page (`slot-1` .. `slot-3`). */
  const SLOT_COUNT: nat := 3

  const EMBED_PREFIX: string := "https://www.instagram.com/p/"
  const EMBED_SUFFIX: string := "/embed/captioned/"

  /** One manifest entry; only its `id` is consulted by the selection. */
  datatype Video = Video(id: string)

  /** What a slot element holds: the page's own markup, or one embed iframe. */
  datatype SlotContent = Markup(html: string) | Iframe(src: string)

  /** The element `slot-<n>`, or `null` when the page lacks it. */
  datatype SlotElement = Missing | Present(content: SlotContent)

  /** The error that the `catch` block of `loadRandomReels` logs. */
  datatype LoadError =
    | ManifestUnavailable      // `fetch` or `response.json()` failed
    | SlotMissing(slot: nat)   // `innerHTML` written on a missing `slot-<slot>`

  function Min(a: int, b: int): (m: int)
    ensures m <= a && m <= b && (m == a || m == b)
  {
    if a <= b then a else b
  }

  /** The embed address of a video. */
  function EmbedUrl(id: string): (url: string)
    ensures |url| == |EMBED_PREFIX| + |id| + |EMBED_SUFFIX|
    ensures url[..|EMBED_PREFIX|] == EMBED_PREFIX
    ensures url[|EMBED_PREFIX|..|EMBED_PREFIX| + |id|] == id
    ensures url[|EMBED_PREFIX| + |id|..] == EMBED_SUFFIX
  {
    EMBED_PREFIX + id + EMBED_SUFFIX
  }

  /** Different videos get different embed addresses. */
  lemma EmbedUrlInjective(a: string, b: string)
    requires EmbedUrl(a) == EmbedUrl(b)
    ensures a == b
  {
  }

  /** The manifest videos whose id is not currently shown, in manifest order. */
  function FreshVideos(manifest: seq<Video>, shown: seq<string>): (freshVideos: seq<Video>)
    ensures |freshVideos| <= |manifest|
    ensures forall v :: v in freshVideos <==> v in manifest && v.id !in shown
  {
    if manifest == [] then []
    else
      assert manifest == [manifest[0]] + manifest[1..];
      if manifest[0].id !in shown then [manifest[0]] + FreshVideos(manifest[1..], shown)
      else FreshVideos(manifest[1..], shown)
  }

  /** The manifest videos whose id is currently shown, in manifest order. */
  function StaleVideos(manifest: seq<Video>, shown: seq<string>): (staleVideos: seq<Video>)
    ensures |staleVideos| <= |manifest|
    ensures forall v :: v in staleVideos <==> v in manifest && v.id in shown
  {
    if manifest == [] then []
    else
      assert manifest == [manifest[0]] + manifest[1..];
      if manifest[0].id in shown then [manifest[0]] + StaleVideos(manifest[1..], shown)
      else StaleVideos(manifest[1..], shown)
  }

  /** `shuffled` is some reordering of `original` (the random sort of lines 15-16). */
  predicate IsShuffleOf(shuffled: seq<Video>, original: seq<Video>)
  {
    multiset(shuffled) == multiset(original)
  }

  lemma ShuffleHasSameMembers(shuffled: seq<Video>, original: seq<Video>)
    ensures IsShuffleOf(shuffled, original) ==> forall v :: v in shuffled <==> v in original
  {
    if IsShuffleOf(shuffled, original) {
      forall v ensures v in shuffled <==> v in original {
        assert v in shuffled <==> v in multiset(shuffled);
        assert v in original <==> v in multiset(original);
      }
    }
  }

  /**
    The two lists after the filters and the random sorts (lines 10-16):
    reorderings of the fresh and the stale videos of `manifest`.
  */
  predicate ShuffledSplit(manifest: seq<Video>, shown: seq<string>, freshShuffled: seq<Video>, staleShuffled: seq<Video>)
    ensures ShuffledSplit(manifest, shown, freshShuffled, staleShuffled) ==>
      && |freshShuffled| + |staleShuffled| == |manifest|
      && (forall v :: v in freshShuffled <==> v in manifest && v.id !in shown)
      && (forall v :: v in staleShuffled <==> v in manifest && v.id in shown)
  {
    PartitionManifest(manifest, shown);
    ShuffleHasSameMembers(freshShuffled, FreshVideos(manifest, shown));
    ShuffleHasSameMembers(staleShuffled, StaleVideos(manifest, shown));
    IsShuffleOf(freshShuffled, FreshVideos(manifest, shown)) &&
    IsShuffleOf(staleShuffled, StaleVideos(manifest, shown))
  }

  /** JavaScript's `s.slice(0, n)`: the first `n` elements, or all of them when there are fewer. */
  function Take(s: seq<Video>, n: nat): (prefix: seq<Video>)
    ensures |prefix| == Min(n, |s|)
    ensures prefix == s[..|prefix|]
  {
    if n <= |s| then s[..n] else s
  }

  /** The new lineup (lines 20-29): three fresh videos when there are enough, else every fresh one topped up from the stale ones. */
  function Lineup(freshVideos: seq<Video>, staleVideos: seq<Video>): (selection: seq<Video>)
    ensures |selection| == Min(SLOT_COUNT, |freshVideos| + |staleVideos|)
    ensures selection[..Min(SLOT_COUNT, |freshVideos|)] == freshVideos[..Min(SLOT_COUNT, |freshVideos|)]
    ensures forall k | Min(SLOT_COUNT, |freshVideos|) <= k < |selection| :: selection[k] in staleVideos
    ensures selection[Min(SLOT_COUNT, |freshVideos|)..] == staleVideos[..|selection| - Min(SLOT_COUNT, |freshVideos|)]
  {
    if |freshVideos| >= SLOT_COUNT then Take(freshVideos, SLOT_COUNT)
    else freshVideos + Take(staleVideos, SLOT_COUNT - |freshVideos|)
  }

  /** `selection.map(v => v.id)` */
  function Ids(videos: seq<Video>): (ids: seq<string>)
    ensures |ids| == |videos|
    ensures forall k | 0 <= k < |videos| :: ids[k] == videos[k].id
  {
    seq(|videos|, k requires 0 <= k < |videos| => videos[k].id)
  }

  /** No two videos of `videos` share an id. */
  predicate DistinctIds(videos: seq<Video>)
  {
    forall i, j | 0 <= i < j < |videos| :: videos[i].id != videos[j].id
  }

  /** Every manifest video lands in exactly one of the two lists, as often as it occurs in the manifest. */
  lemma {:induction false} PartitionManifest(manifest: seq<Video>, shown: seq<string>)
    ensures multiset(FreshVideos(manifest, shown)) + multiset(StaleVideos(manifest, shown)) == multiset(manifest)
    ensures |FreshVideos(manifest, shown)| + |StaleVideos(manifest, shown)| == |manifest|
  {
    if manifest != [] {
      PartitionManifest(manifest[1..], shown);
      assert manifest == [manifest[0]] + manifest[1..];
    }
  }

  lemma PrefixSubBag(s: seq<Video>, n: nat)
    requires n <= |s|
    ensures multiset(s[..n]) <= multiset(s)
  {
    assert s == s[..n] + s[n..];
  }

  /** Every selected video comes from the manifest, and no more often than it occurs there. */
  lemma SelectionFromManifest(manifest: seq<Video>, shown: seq<string>, freshShuffled: seq<Video>, staleShuffled: seq<Video>)
    requires ShuffledSplit(manifest, shown, freshShuffled, staleShuffled)
    ensures multiset(Lineup(freshShuffled, staleShuffled)) <= multiset(manifest)
    ensures forall v :: v in Lineup(freshShuffled, staleShuffled) ==> v in manifest
  {
    PartitionManifest(manifest, shown);
    var selection := Lineup(freshShuffled, staleShuffled);
    if |freshShuffled| >= SLOT_COUNT {
      PrefixSubBag(freshShuffled, SLOT_COUNT);
    } else {
      var k := Min(SLOT_COUNT - |freshShuffled|, |staleShuffled|);
      PrefixSubBag(staleShuffled, k);
      assert selection == freshShuffled + staleShuffled[..k];
    }
    forall v | v in selection ensures v in manifest {
      assert v in multiset(selection);
    }
  }

  /** The lineup always has `min(3, |manifest|)` videos. */
  lemma SelectionSize(manifest: seq<Video>, shown: seq<string>, freshShuffled: seq<Video>, staleShuffled: seq<Video>)
    requires ShuffledSplit(manifest, shown, freshShuffled, staleShuffled)
    ensures |Lineup(freshShuffled, staleShuffled)| == Min(SLOT_COUNT, |manifest|)
  {
    PartitionManifest(manifest, shown);
    assert |freshShuffled| == |multiset(freshShuffled)|;
    assert |staleShuffled| == |multiset(staleShuffled)|;
  }

  /** With at least three fresh videos, the lineup is three fresh videos and repeats nothing on screen. */
  lemma EnoughFreshMeansNoRepeat(manifest: seq<Video>, shown: seq<string>, freshShuffled: seq<Video>, staleShuffled: seq<Video>)
    requires ShuffledSplit(manifest, shown, freshShuffled, staleShuffled)
    requires |FreshVideos(manifest, shown)| >= SLOT_COUNT
    ensures |Lineup(freshShuffled, staleShuffled)| == SLOT_COUNT
    ensures forall v :: v in Lineup(freshShuffled, staleShuffled) ==> v in FreshVideos(manifest, shown)
    ensures forall id :: id in Ids(Lineup(freshShuffled, staleShuffled)) ==> id !in shown
  {
    var freshVideos := FreshVideos(manifest, shown);
    assert |freshShuffled| == |multiset(freshShuffled)| == |multiset(freshVideos)| == |freshVideos|;
    var selection := Lineup(freshShuffled, staleShuffled);
    forall v | v in selection ensures v in freshVideos {
      assert v in freshShuffled;
      assert v in multiset(freshShuffled);
    }
    forall id | id in Ids(selection) ensures id !in shown {
      var k :| 0 <= k < |selection| && Ids(selection)[k] == id;
      assert selection[k] in freshVideos;
    }
  }

  /** With fewer than three fresh videos, the lineup starts with every fresh video. */
  lemma ShortFreshAllIncluded(manifest: seq<Video>, shown: seq<string>, freshShuffled: seq<Video>, staleShuffled: seq<Video>)
    requires ShuffledSplit(manifest, shown, freshShuffled, staleShuffled)
    requires |FreshVideos(manifest, shown)| < SLOT_COUNT
    ensures var freshVideos := FreshVideos(manifest, shown);
            var selection := Lineup(freshShuffled, staleShuffled);
            && |freshVideos| <= |selection|
            && multiset(selection[..|freshVideos|]) == multiset(freshVideos)
            && (forall v :: v in freshVideos ==> v in selection)
  {
    var freshVideos := FreshVideos(manifest, shown);
    assert |freshShuffled| == |multiset(freshShuffled)| == |freshVideos|;
  }

  /**
    With fewer than three fresh videos, the lineup is topped up with
    `min(3 - |fresh|, |stale|)` videos that are on screen; a manifest of
    three or more videos still fills all three slots.
  */
  lemma ShortFreshTopsUpFromStale(manifest: seq<Video>, shown: seq<string>, freshShuffled: seq<Video>, staleShuffled: seq<Video>)
    requires ShuffledSplit(manifest, shown, freshShuffled, staleShuffled)
    requires |FreshVideos(manifest, shown)| < SLOT_COUNT
    ensures var freshCount := |FreshVideos(manifest, shown)|;
            var selection := Lineup(freshShuffled, staleShuffled);
            && freshCount <= |selection|
            && (forall k | freshCount <= k < |selection| :: selection[k].id in shown)
            && |selection| - freshCount == Min(SLOT_COUNT - freshCount, |StaleVideos(manifest, shown)|)
            && (|manifest| >= SLOT_COUNT ==> |selection| - freshCount == SLOT_COUNT - freshCount)
  {
    PartitionManifest(manifest, shown);
    assert |freshShuffled| == |multiset(freshShuffled)|;
    assert |staleShuffled| == |multiset(staleShuffled)|;
  }

  /**
    The ids recorded by one call make every selected video stale for the
    next call: when the next call still has three fresh videos, the two
    lineups share no video.
  */
  lemma ConsecutiveLineupsDisjoint(manifest: seq<Video>, shown: seq<string>,
                                   freshShuffled: seq<Video>, staleShuffled: seq<Video>,
                                   nextFresh: seq<Video>, nextStale: seq<Video>)
    requires ShuffledSplit(manifest, shown, freshShuffled, staleShuffled)
    requires ShuffledSplit(manifest, Ids(Lineup(freshShuffled, staleShuffled)), nextFresh, nextStale)
    requires |FreshVideos(manifest, Ids(Lineup(freshShuffled, staleShuffled)))| >= SLOT_COUNT
    ensures forall v :: v in Lineup(nextFresh, nextStale) ==> v !in Lineup(freshShuffled, staleShuffled)
  {
    var selection := Lineup(freshShuffled, staleShuffled);
    EnoughFreshMeansNoRepeat(manifest, Ids(selection), nextFresh, nextStale);
    forall v | v in Lineup(nextFresh, nextStale) ensures v !in selection {
      assert v in FreshVideos(manifest, Ids(selection));
      IdOfMember(selection, v);
    }
  }

  lemma IdOfMember(videos: seq<Video>, v: Video)
    ensures v in videos ==> v.id in Ids(videos)
  {
  }

  /** Five videos, three of them on screen: the lineup keeps both fresh videos and adds one shown video. */
  lemma TwoFreshOfFiveExample(freshShuffled: seq<Video>, staleShuffled: seq<Video>)
    requires ShuffledSplit([Video("A"), Video("B"), Video("C"), Video("D"), Video("E")], ["A", "B", "C"],
                           freshShuffled, staleShuffled)
    ensures var selection := Lineup(freshShuffled, staleShuffled);
            && |selection| == 3
            && Video("D") in selection && Video("E") in selection
            && selection[2].id in ["A", "B", "C"]
  {
    var manifest := [Video("A"), Video("B"), Video("C"), Video("D"), Video("E")];
    var shown := ["A", "B", "C"];
    FiveVideosFreshList();
    SelectionSize(manifest, shown, freshShuffled, staleShuffled);
    ShortFreshAllIncluded(manifest, shown, freshShuffled, staleShuffled);
    ShortFreshTopsUpFromStale(manifest, shown, freshShuffled, staleShuffled);
  }

  lemma FiveVideosFreshList()
    ensures FreshVideos([Video("A"), Video("B"), Video("C"), Video("D"), Video("E")], ["A", "B", "C"])
         == [Video("D"), Video("E")]
  {
    var manifest := [Video("A"), Video("B"), Video("C"), Video("D"), Video("E")];
    var shown := ["A", "B", "C"];
    assert "D" !in shown && "E" !in shown;
    assert manifest[3..][1..] == [Video("E")];
    assert FreshVideos(manifest[3..], shown) == [Video("D"), Video("E")];
    assert FreshVideos(manifest[2..], shown) == FreshVideos(manifest[3..], shown) by { assert manifest[2..][1..] == manifest[3..]; }
    assert FreshVideos(manifest[1..], shown) == FreshVideos(manifest[2..], shown) by { assert manifest[1..][1..] == manifest[2..]; }
  }

  /** Multiplicity at most one in `s`. */
  lemma {:induction false} DistinctIdsOccurOnce(s: seq<Video>)
    requires DistinctIds(s)
    ensures forall v :: multiset(s)[v] <= 1
  {
    if s != [] {
      assert DistinctIds(s[1..]) by {
        forall i, j | 0 <= i < j < |s| - 1 ensures s[1..][i].id != s[1..][j].id {
          assert s[1..][i] == s[i + 1] && s[1..][j] == s[j + 1];
        }
      }
      DistinctIdsOccurOnce(s[1..]);
      forall k | 0 <= k < |s| - 1 ensures s[1..][k] != s[0] {
        assert s[1..][k].id == s[k + 1].id != s[0].id;
      }
      assert s[0] !in s[1..];
      assert s == [s[0]] + s[1..];
    }
  }

  lemma TwiceInSequence(t: seq<Video>, i: nat, j: nat)
    requires i < j < |t|
    ensures t[i] == t[j] ==> multiset(t)[t[i]] >= 2
  {
    assert t == t[..j] + t[j..];
    assert t[..j][i] == t[i];
    assert t[j..][0] == t[j];
    assert multiset(t[..j])[t[i]] >= 1;
  }

  /** In a list with distinct ids, the id determines the video. */
  lemma IdDeterminesVideo(s: seq<Video>, v: Video, w: Video)
    requires DistinctIds(s)
    requires v in s && w in s
    ensures v.id == w.id ==> v == w
  {
  }

  /** A sub-bag of a list with distinct ids has distinct ids. */
  lemma SubBagKeepsDistinctIds(s: seq<Video>, t: seq<Video>)
    requires DistinctIds(s)
    requires multiset(t) <= multiset(s)
    ensures DistinctIds(t)
  {
    DistinctIdsOccurOnce(s);
    forall i, j | 0 <= i < j < |t| ensures t[i].id != t[j].id {
      TwiceInSequence(t, i, j);
      assert t[i] != t[j];
      assert t[i] in multiset(t) && t[j] in multiset(t);
      IdDeterminesVideo(s, t[i], t[j]);
    }
  }

  /** When manifest ids are distinct, so are the ids of the lineup. */
  lemma SelectionDistinct(manifest: seq<Video>, shown: seq<string>, freshShuffled: seq<Video>, staleShuffled: seq<Video>)
    requires ShuffledSplit(manifest, shown, freshShuffled, staleShuffled)
    requires DistinctIds(manifest)
    ensures DistinctIds(Lineup(freshShuffled, staleShuffled))
  {
    SelectionFromManifest(manifest, shown, freshShuffled, staleShuffled);
    SubBagKeepsDistinctIds(manifest, Lineup(freshShuffled, staleShuffled));
  }

  /**
    How many of the first slots the rendering loop fills before it stops:
    it walks the slots that have a selected video and stops at the first
    missing slot element, where writing `innerHTML` throws.
  */
  function Written(page: seq<SlotElement>, selection: seq<Video>): (n: nat)
    ensures n <= |page| && n <= |selection|
    ensures forall k | 0 <= k < n :: page[k].Present?
    ensures n < |page| && n < |selection| ==> page[n].Missing?
  {
    if page == [] || selection == [] || page[0].Missing? then 0
    else 1 + Written(page[1..], selection[1..])
  }

  /** When every slot element exists, every slot that has a selected video is written. */
  lemma AllSlotsPresentWritesAll(page: seq<SlotElement>, selection: seq<Video>)
    requires forall k | 0 <= k < |page| :: page[k].Present?
    ensures Written(page, selection) == Min(|page|, |selection|)
  {
  }

  /**
    The page-side state of the rotation: the ids on screen
    (`currentlyShownIds`) and the three slot elements.
  */
  class ReelRotator {
    var currentlyShownIds: seq<string>
    const slots: array<SlotElement>

    ghost predicate Valid()
      reads this
    {
      slots.Length == SLOT_COUNT
    }

    /** The page as loaded: nothing selected yet, slots as in the markup. */
    constructor (page: seq<SlotElement>)
      requires |page| == SLOT_COUNT
      ensures Valid() && fresh(slots)
      ensures currentlyShownIds == [] && slots[..] == page
    {
      currentlyShownIds := [];
      slots := new SlotElement[SLOT_COUNT](k requires 0 <= k < SLOT_COUNT => page[k]);
    }

    /**
      One call of `loadRandomReels`. `fetched` is the parsed manifest, or
      `None` when fetching or parsing it failed; `freshShuffled` and
      `staleShuffled` are the outcome of the two random sorts. The result
      is what the `catch` block logs, if anything.
    */
    method LoadRandomReels(fetched: Option<seq<Video>>, freshShuffled: seq<Video>, staleShuffled: seq<Video>)
      returns (logged: Option<LoadError>)
      requires Valid()
      requires fetched.Some? ==> ShuffledSplit(fetched.value, currentlyShownIds, freshShuffled, staleShuffled)
      modifies this, slots
      ensures Valid()
      ensures fetched.None? ==>
        && logged == Some(ManifestUnavailable)
        && currentlyShownIds == old(currentlyShownIds)
        && slots[..] == old(slots[..])
      ensures fetched.Some? ==>
        var selection := Lineup(freshShuffled, staleShuffled);
        var written := Written(old(slots[..]), selection);
        && currentlyShownIds == Ids(selection)
        && (forall k | 0 <= k < SLOT_COUNT ::
              slots[k] == if k < written then Present(Iframe(EmbedUrl(selection[k].id))) else old(slots[k]))
        && logged == if written < Min(SLOT_COUNT, |selection|) then Some(SlotMissing(written + 1)) else None
    {
      if fetched.None? {
        return Some(ManifestUnavailable);
      }
      ghost var page := slots[..];
      var selection := Lineup(freshShuffled, staleShuffled);
      currentlyShownIds := Ids(selection);
      assert slots[..] == page;
      logged := ShowSelection(selection);
    }

    /**
      Step 5 of `loadRandomReels`: every slot that has a selected video is
      cleared and given that video's embed, in slot order, until a slot
      element is missing; the write on the missing element throws, which
      ends the loop, and the later slots keep their content.
    */
    method ShowSelection(selection: seq<Video>) returns (logged: Option<LoadError>)
      requires Valid()
      modifies slots
      ensures var written := Written(old(slots[..]), selection);
        && (forall k | 0 <= k < SLOT_COUNT ::
              slots[k] == if k < written then Present(Iframe(EmbedUrl(selection[k].id))) else old(slots[k]))
        && logged == if written < Min(SLOT_COUNT, |selection|) then Some(SlotMissing(written + 1)) else None
    {
      ghost var page := slots[..];
      var i := 0;
      while i < SLOT_COUNT
        invariant 0 <= i <= SLOT_COUNT
        invariant forall k | 0 <= k < i && k < |selection| :: page[k].Present?
        invariant forall k | 0 <= k < SLOT_COUNT ::
                    slots[k] == if k < i && k < |selection| then Present(Iframe(EmbedUrl(selection[k].id))) else page[k]
      {
        if i < |selection| {
          if slots[i].Missing? {
            assert Written(page, selection) == i;
            return Some(SlotMissing(i + 1));
          }
          slots[i] := Present(Iframe(EmbedUrl(selection[i].id)));
        }
        i := i + 1;
      }
      assert Written(page, selection) == Min(SLOT_COUNT, |selection|);
      logged := None;
    }
  }
}
