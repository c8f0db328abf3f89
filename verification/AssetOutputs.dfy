/** The outputs of a transcode: what a success fact names, and what is cleaned up if it is not recorded. */
module AssetOutputs {
  import opened Common
  import opened AssetEvents
  import opened AssetDeletion
  import opened AssetTurns

  datatype Attachment = Attachment(id: Id, details: string)

  datatype VideoVariant = VideoVariant(quality: string, attachment: Option<Attachment>)

  /** The variant has been transcoded. */
  predicate HasOutput(variant: Option<VideoVariant>) {
    variant.Some? && variant.value.attachment.Some?
  }

  /** How many of the first n variants have been transcoded. */
  function Transcoded(variants: seq<Option<VideoVariant>>, n: nat): nat
    requires n <= |variants|
  {
    if n == 0 then 0 else Transcoded(variants, n - 1) + (if HasOutput(variants[n - 1]) then 1 else 0)
  }

  predicate NamesVariant(variant: Option<VideoVariant>, named: Variant) {
    HasOutput(variant) && named.quality == variant.value.quality && named.assetId == variant.value.attachment.value.id
  }

  ghost predicate NamedInPlace(variants: seq<Option<VideoVariant>>, named: seq<Variant>, i: nat)
    requires i < |variants|
  {
    Transcoded(variants, i) < |named| && NamesVariant(variants[i], named[Transcoded(variants, i)])
  }

  /** The renditions a success fact names: each transcoded variant, behind those that come before it, and no other. */
  ghost predicate Names(variants: seq<Option<VideoVariant>>, named: seq<Variant>) {
    && |named| == Transcoded(variants, |variants|)
    && forall i :: 0 <= i < |variants| && HasOutput(variants[i]) ==> NamedInPlace(variants, named, i)
  }

  lemma {:induction false} TranscodedPrefix(variants: seq<Option<VideoVariant>>, m: nat, n: nat)
    requires n <= m <= |variants|
    ensures Transcoded(variants[..m], n) == Transcoded(variants, n) <= Transcoded(variants, m)
  {
    if n > 0 {
      TranscodedPrefix(variants, m, n - 1);
    }
    TranscodedGrows(variants, n, m);
  }

  lemma {:induction false} TranscodedGrows(variants: seq<Option<VideoVariant>>, n: nat, m: nat)
    requires n <= m <= |variants|
    ensures Transcoded(variants, n) <= Transcoded(variants, m)
  {
    if n < m {
      TranscodedGrows(variants, n, m - 1);
    }
  }

  lemma NamedWithVariant(variants: seq<Option<VideoVariant>>, n: nat, named: seq<Variant>, longer: seq<Variant>)
    requires n < |variants| && Names(variants[..n], named)
    requires if HasOutput(variants[n]) then |longer| > 0 && longer[..|longer| - 1] == named
                                            && NamesVariant(variants[n], longer[|longer| - 1])
             else longer == named
    ensures Names(variants[..n + 1], longer)
  {
    TranscodedPrefix(variants, n, n);
    TranscodedPrefix(variants, n + 1, n);
    TranscodedPrefix(variants, n + 1, n + 1);
    forall i | 0 <= i < n + 1 && HasOutput(variants[i]) ensures NamedInPlace(variants[..n + 1], longer, i) {
      TranscodedPrefix(variants, n + 1, i);
      if i < n {
        TranscodedPrefix(variants, n, i);
        assert variants[..n][i] == variants[i] && NamedInPlace(variants[..n], named, i);
      }
    }
  }

  /** Every named rendition is one of the variants. */
  lemma {:induction false} NamedFrom(variants: seq<Option<VideoVariant>>, n: nat, j: nat) returns (i: nat)
    requires n <= |variants| && j < Transcoded(variants, n)
    ensures i < n && HasOutput(variants[i]) && Transcoded(variants, i) == j
  {
    if j < Transcoded(variants, n - 1) {
      i := NamedFrom(variants, n - 1, j);
    } else {
      i := n - 1;
    }
  }

  lemma NamesOutputs(variants: seq<Option<VideoVariant>>, named: seq<Variant>, id: Id)
    requires Names(variants, named)
    ensures IsVariantOutput(variants, |variants|, id) <==> exists j :: 0 <= j < |named| && named[j].assetId == id
  {
    if IsVariantOutput(variants, |variants|, id) {
      var i :| 0 <= i < |variants| && HasOutput(variants[i]) && variants[i].value.attachment.value.id == id;
      assert NamedInPlace(variants, named, i);
    }
    forall j | 0 <= j < |named| && named[j].assetId == id ensures IsVariantOutput(variants, |variants|, id) {
      var i := NamedFrom(variants, |variants|, j);
      assert NamedInPlace(variants, named, i);
    }
  }

  /** Only one list of renditions fits. */
  lemma NamesIsUnique(variants: seq<Option<VideoVariant>>, named: seq<Variant>, other: seq<Variant>)
    requires Names(variants, named) && Names(variants, other)
    ensures named == other
  {
    forall j | 0 <= j < |named| ensures named[j] == other[j] {
      var i := NamedFrom(variants, |variants|, j);
      assert NamedInPlace(variants, named, i) && NamedInPlace(variants, other, i);
    }
  }

  /** The derivative outputs handed to a call: the thumbnail and every variant with an id. */
  ghost predicate IsOutput(thumbnail: Option<Attachment>, variants: seq<Option<VideoVariant>>, id: Id) {
    id != "" && ((thumbnail.Some? && thumbnail.value.id == id) || IsVariantOutput(variants, |variants|, id))
  }

  ghost predicate IsVariantOutput(variants: seq<Option<VideoVariant>>, n: nat, id: Id)
    requires n <= |variants|
  {
    exists i :: 0 <= i < n && HasOutput(variants[i]) && variants[i].value.attachment.value.id == id
  }

  method NameVariants(variants: seq<Option<VideoVariant>>) returns (named: seq<Variant>)
    ensures Names(variants, named)
  {
    named := [];
    for i := 0 to |variants|
      invariant Names(variants[..i], named)
    {
      hide Names;
      ghost var before := named;
      if HasOutput(variants[i]) {
        named := named + [Variant(variants[i].value.quality, variants[i].value.attachment.value.id)];
      }
      NamedWithVariant(variants, i, before, named);
    }
    assert variants[..|variants|] == variants;
  }

  /** The entry deletes one of the outputs. */
  ghost predicate CleansUp(e: Entry, actorId: Id, thumbnail: Option<Attachment>, variants: seq<Option<VideoVariant>>) {
    IsDeleteBy(e, actorId, e.event.Asset()) && IsOutput(thumbnail, variants, e.event.Asset())
  }

  /** At most one delete for the thumbnail and for each of the first n variants, and nothing else. */
  ghost predicate OnlyCleansUp(own: multiset<Entry>, actorId: Id, thumbnail: Option<Attachment>,
                               variants: seq<Option<VideoVariant>>, n: nat)
    requires n <= |variants|
  {
    |own| <= 1 + n && forall e :: e in own ==> CleansUp(e, actorId, thumbnail, variants)
  }

  /** Since then the thumbnail and the outputs among the first n variants have been tombstoned, except those warned
      about. */
  ghost predicate CleanedUp(log: Log, from: nat, thumbnail: Option<Attachment>, variants: seq<Option<VideoVariant>>,
                            n: nat, warned: set<Id>)
    requires n <= |variants|
  {
    forall id :: id != "" && ((thumbnail.Some? && thumbnail.value.id == id) || IsVariantOutput(variants, n, id)) ==>
      id in warned || Tombstoned(log, from, id)
  }

  lemma CleanedUpSince(log: Log, later: nat, from: nat, thumbnail: Option<Attachment>,
                       variants: seq<Option<VideoVariant>>, n: nat, warned: set<Id>)
    requires n <= |variants| && from <= later && CleanedUp(log, later, thumbnail, variants, n, warned)
    ensures CleanedUp(log, from, thumbnail, variants, n, warned)
  {
  }

  lemma ThumbnailCleanedUp(log: Log, from: nat, actorId: Id, thumbnail: Option<Attachment>,
                           variants: seq<Option<VideoVariant>>, warned: set<Id>, own: multiset<Entry>)
    requires |own| <= 1 && forall e :: e in own ==>
               thumbnail.Some? && thumbnail.value.id != "" && IsDeleteBy(e, actorId, thumbnail.value.id)
    requires forall x :: x in warned ==> thumbnail.Some? && thumbnail.value.id == x != ""
    ensures OnlyCleansUp(own, actorId, thumbnail, variants, 0)
    ensures forall x :: x in warned ==> IsOutput(thumbnail, variants, x)
    ensures (thumbnail.Some? && thumbnail.value.id != "" ==>
               thumbnail.value.id in warned || Tombstoned(log, from, thumbnail.value.id)) ==>
              CleanedUp(log, from, thumbnail, variants, 0, warned)
  {
  }

  lemma NothingToCleanUp(log: Log, from: nat, actorId: Id, thumbnail: Option<Attachment>,
                         variants: seq<Option<VideoVariant>>, n: nat, warned: set<Id>, own: multiset<Entry>)
    requires n < |variants| && variants[n].None? && OnlyCleansUp(own, actorId, thumbnail, variants, n)
    ensures OnlyCleansUp(own, actorId, thumbnail, variants, n + 1)
    ensures CleanedUp(log, from, thumbnail, variants, n, warned) ==>
              CleanedUp(log, from, thumbnail, variants, n + 1, warned)
  {
    hide Tombstoned;
  }

  lemma VariantCleanedUp(
    log: Log, longer: Log, from: nat, actorId: Id, thumbnail: Option<Attachment>, variants: seq<Option<VideoVariant>>,
    n: nat, warned: set<Id>, failed: set<Id>, own: multiset<Entry>, more: multiset<Entry>, known: bool)
    requires n < |variants| && variants[n].Some? && from <= |log| && log <= longer
    requires OnlyCleansUp(own, actorId, thumbnail, variants, n)
    requires forall x :: x in warned ==> IsOutput(thumbnail, variants, x)
    requires known ==> CleanedUp(log, from, thumbnail, variants, n, warned)
    requires |more| <= 1 && forall e :: e in more ==>
               HasOutput(variants[n]) && variants[n].value.attachment.value.id != ""
               && IsDeleteBy(e, actorId, variants[n].value.attachment.value.id)
    requires forall x :: x in failed ==> HasOutput(variants[n]) && variants[n].value.attachment.value.id == x != ""
    requires known && HasOutput(variants[n]) && variants[n].value.attachment.value.id != "" ==>
               var id := variants[n].value.attachment.value.id; id in failed || Tombstoned(longer, |log|, id)
    ensures OnlyCleansUp(own + more, actorId, thumbnail, variants, n + 1)
    ensures forall x :: x in warned + failed ==> IsOutput(thumbnail, variants, x)
    ensures known ==> CleanedUp(longer, from, thumbnail, variants, n + 1, warned + failed)
  {
    hide Tombstoned;
    TombstonesStay(log, longer, from);
  }

  /** The entry is a success fact with these values that names the thumbnail and the transcoded variants. */
  ghost predicate RecordsOutputs(
    e: Entry, messageEventId: Id, attachmentId: Id, durationMs: int, width: int, height: int,
    thumbnail: Option<Attachment>, variants: seq<Option<VideoVariant>>)
  {
    && e.event.ProcessingSucceeded? && e.event.assetId == attachmentId && e.event.messageEventId == messageEventId
    && var video := e.event.video;
       && video.durationMs == durationMs && video.width == width && video.height == height
       && video.thumbnailId == (if thumbnail.Some? then thumbnail.value.id else "")
       && Names(variants, video.variants)
  }

  /** What such a fact names are exactly the outputs. */
  lemma RecordedOutputs(e: Entry, messageEventId: Id, attachmentId: Id, durationMs: int, width: int, height: int,
                        thumbnail: Option<Attachment>, variants: seq<Option<VideoVariant>>, id: Id)
    requires RecordsOutputs(e, messageEventId, attachmentId, durationMs, width, height, thumbnail, variants) && id != ""
    ensures IsOutput(thumbnail, variants, id) <==>
            e.event.video.thumbnailId == id || exists v :: v in e.event.video.variants && v.assetId == id
  {
    var named := e.event.video.variants;
    NamesOutputs(variants, named, id);
    if v :| v in named && v.assetId == id {
      var j :| 0 <= j < |named| && named[j] == v;
    }
  }
}
