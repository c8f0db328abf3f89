/** Exporting key-encryption keys from one bucket and importing them into another. */
module KeyTransfer {
  import opened Common
  import opened ByteStrings

  const KEY_SIZE := 32
  const KEK_PREFIX := "kek."
  const USER_PREFIX := "user."
  const DEK_PREFIX := "dek."
  const CALL_PREFIX := "call.e2ee."

  datatype KeyError = MissingRef | UnknownPrefix | InvalidRecord | Unavailable

  predicate HasPrefix(s: string, prefix: string) {
    prefix <= s
  }

  predicate IsKeyRef(ref: string) {
    HasPrefix(ref, KEK_PREFIX) || HasPrefix(ref, USER_PREFIX)
  }

  /** A ref that a key file carries: neither a wrapped data key nor a call key. */
  predicate IsPortable(ref: string) {
    !HasPrefix(ref, DEK_PREFIX) && !HasPrefix(ref, CALL_PREFIX)
  }

  /**
   * A legacy user key is 32 raw bytes; any other key may also be an envelope. Which bytes decode as an envelope of
   * the built-in algorithm is a parameter throughout.
   */
  function ValidateKEKRecord(ref: string, data: Bytes, envelope: Bytes -> bool): Option<KeyError> {
    if !IsKeyRef(ref) then Some(UnknownPrefix)
    else if |data| == KEY_SIZE then None
    else if HasPrefix(ref, USER_PREFIX) || !envelope(data) then Some(InvalidRecord)
    else None
  }

  /** Which records are valid: a user key exactly at 32 bytes, a key-encryption key at 32 bytes or as an envelope, and
      nothing under another prefix. */
  lemma ValidRecords(ref: string, data: Bytes, envelope: Bytes -> bool)
    ensures "user." <= ref ==> (ValidateKEKRecord(ref, data, envelope).None? <==> |data| == 32)
    ensures "kek." <= ref ==> (ValidateKEKRecord(ref, data, envelope).None? <==> |data| == 32 || envelope(data))
    ensures !("user." <= ref) && !("kek." <= ref) ==> ValidateKEKRecord(ref, data, envelope) == Some(UnknownPrefix)
  {
    if "kek." <= ref {
      assert ref[0] == 'k';
    }
  }

  datatype ExportedKey = ExportedKey(keyRef: string, userId: string, key: Bytes)

  function KeyRefForImport(k: ExportedKey): string {
    if k.keyRef != "" then k.keyRef
    else if k.userId == "" then ""
    else USER_PREFIX + k.userId
  }

  function ValidateExportedKey(k: ExportedKey, envelope: Bytes -> bool): (r: Result<string, KeyError>)
    ensures r.Ok? ==> r.value == KeyRefForImport(k) && r.value != ""
  {
    var ref := KeyRefForImport(k);
    if ref == "" then Err(MissingRef)
    else
      var invalid := ValidateKEKRecord(ref, k.key, envelope);
      if invalid.Some? then Err(invalid.value) else Ok(ref)
  }

  // ---- The bucket ----

  datatype CreateResult = Created | KeyExists | Failed

  class Bucket {
    var entries: map<string, Bytes>

    constructor (entries: map<string, Bytes>)
      ensures this.entries == entries
    {
      this.entries := entries;
    }

    /** Adds the entry unless its key is there or the request fails. */
    method Create(ref: string, value: Bytes, fails: bool) returns (r: CreateResult)
      modifies this
      ensures r == if fails then Failed else if ref in old(entries) then KeyExists else Created
      ensures entries == if r == Created then old(entries)[ref := value] else old(entries)
    {
      if fails {
        return Failed;
      }
      if ref in entries {
        return KeyExists;
      }
      entries := entries[ref := value];
      return Created;
    }
  }

  // ---- Import ----

  datatype Record = Record(ref: string, key: Bytes)

  predicate IsWrapped(k: ExportedKey) {
    HasPrefix(KeyRefForImport(k), DEK_PREFIX)
  }

  /** An import passes the entry over or validates it. */
  predicate IsAcceptable(k: ExportedKey, envelope: Bytes -> bool) {
    IsWrapped(k) || ValidateExportedKey(k, envelope).Ok?
  }

  predicate AllAcceptable(keys: seq<ExportedKey>, envelope: Bytes -> bool) {
    forall i :: 0 <= i < |keys| ==> IsAcceptable(keys[i], envelope)
  }

  /** e is what is wrong with the first key that is not acceptable. */
  ghost predicate FirstFault(keys: seq<ExportedKey>, envelope: Bytes -> bool, e: KeyError) {
    exists i :: 0 <= i < |keys| && AllAcceptable(keys[..i], envelope) && IsFault(keys[i], envelope, e)
  }

  predicate IsFault(k: ExportedKey, envelope: Bytes -> bool, e: KeyError) {
    !IsWrapped(k) && ValidateExportedKey(k, envelope) == Err(e)
  }

  function Importable(keys: seq<ExportedKey>): (list: seq<Record>)
    ensures |list| <= |keys|
  {
    if keys == [] then []
    else
      var k := keys[|keys| - 1];
      Importable(keys[..|keys| - 1]) + (if IsWrapped(k) then [] else [Record(KeyRefForImport(k), k.key)])
  }

  /** A further key is passed over if its ref says that it is a wrapped data key, and taken in otherwise: under its ref,
      or else under that of its user, which never says so. */
  lemma OneMoreKey(keys: seq<ExportedKey>, k: ExportedKey, envelope: Bytes -> bool)
    ensures "dek." <= k.keyRef ==> Importable(keys + [k]) == Importable(keys) && IsAcceptable(k, envelope)
    ensures k.keyRef != "" && !("dek." <= k.keyRef) ==>
              Importable(keys + [k]) == Importable(keys) + [Record(k.keyRef, k.key)]
    ensures k.keyRef == "" && k.userId != "" ==>
              Importable(keys + [k]) == Importable(keys) + [Record("user." + k.userId, k.key)]
    ensures k.keyRef == "" && k.userId == "" ==> IsFault(k, envelope, MissingRef)
  {
    assert (keys + [k])[..|keys|] == keys;
    assert KeyRefForImport(k) != "" && k.keyRef == "" ==> KeyRefForImport(k)[0] == 'u';
  }

  /** An export leaves out wrapped data keys and call keys, and nothing else. */
  lemma PortableRefs(listing: seq<string>, entries: map<string, Bytes>, ref: string)
    requires forall i :: 0 <= i < |listing| ==> listing[i] in entries
    requires forall i :: 0 <= i < |listing + [ref]| ==> (listing + [ref])[i] in entries
    ensures ref in entries
    ensures "dek." <= ref || "call.e2ee." <= ref ==>
              ExportedKeys(listing + [ref], entries) == ExportedKeys(listing, entries)
    ensures !("dek." <= ref) && !("call.e2ee." <= ref) ==>
              ExportedKeys(listing + [ref], entries) == ExportedKeys(listing, entries) + [ExportKey(ref, entries[ref])]
  {
    assert (listing + [ref])[..|listing|] == listing && (listing + [ref])[|listing|] == ref;
  }

  /** Each record in turn is added unless its ref is there already. */
  function Merge(entries: map<string, Bytes>, list: seq<Record>): map<string, Bytes> {
    if list == [] then entries
    else
      var earlier := Merge(entries, list[..|list| - 1]);
      var x := list[|list| - 1];
      if x.ref in earlier then earlier else earlier[x.ref := x.key]
  }

  datatype Report = Report(imported: nat, skippedExisting: nat, skippedWrappedDEKs: nat, error: Option<KeyError>)

  /** The first loop: validates everything before anything is written. */
  method SelectImportable(keys: seq<ExportedKey>, envelope: Bytes -> bool)
    returns (importable: seq<Record>, skippedWrappedDEKs: nat, error: Option<KeyError>)
    ensures if error.None? then AllAcceptable(keys, envelope) else FirstFault(keys, envelope, error.value)
    ensures error.None? ==> importable == Importable(keys) && skippedWrappedDEKs == |keys| - |importable|
    ensures error.Some? ==> importable == [] && skippedWrappedDEKs == 0
  {
    hide IsWrapped, ValidateExportedKey, KeyRefForImport;
    importable, skippedWrappedDEKs := [], 0;
    for i := 0 to |keys|
      invariant importable == Importable(keys[..i])
      invariant skippedWrappedDEKs == i - |importable|
      invariant AllAcceptable(keys[..i], envelope)
    {
      var key := keys[i];
      assert keys[..i + 1][..i] == keys[..i];
      if IsWrapped(key) {
        skippedWrappedDEKs := skippedWrappedDEKs + 1;
      } else {
        var valid := ValidateExportedKey(key, envelope);
        if valid.Err? {
          assert IsFault(keys[i], envelope, valid.error);
          return [], 0, Some(valid.error);
        }
        importable := importable + [Record(valid.value, key.key)];
      }
    }
    assert keys[..|keys|] == keys;
    error := None;
  }

  lemma FaultIsNotAcceptable(keys: seq<ExportedKey>, envelope: Bytes -> bool, e: KeyError)
    requires FirstFault(keys, envelope, e)
    ensures !AllAcceptable(keys, envelope)
  {
  }

  /** The second loop; `done` counts the requests that were answered. */
  method CreateAll(kv: Bucket, importable: seq<Record>, fails: set<nat>)
    returns (imported: nat, skippedExisting: nat, error: Option<KeyError>, ghost done: nat)
    modifies kv
    ensures done <= |importable| && forall n :: 0 <= n < done ==> n !in fails
    ensures if error.None? then done == |importable| else done < |importable| && done in fails
    ensures error.Some? ==> error.value == Unavailable
    ensures kv.entries == Merge(old(kv.entries), importable[..done])
    ensures imported == |kv.entries| - |old(kv.entries)| && imported + skippedExisting == done
  {
    imported, skippedExisting, done := 0, 0, 0;
    for n := 0 to |importable|
      invariant done == n && forall m :: 0 <= m < n ==> m !in fails
      invariant kv.entries == Merge(old(kv.entries), importable[..n])
      invariant imported == |kv.entries| - |old(kv.entries)|
      invariant imported + skippedExisting == n
    {
      assert importable[..n + 1][..n] == importable[..n];
      var created := kv.Create(importable[n].ref, importable[n].key, n in fails);
      if created == Failed {
        error := Some(Unavailable);
        return;
      } else if created == KeyExists {
        skippedExisting := skippedExisting + 1;
      } else {
        imported := imported + 1;
      }
      done := n + 1;
    }
    error := None;
  }

  /** The n-th request of the import fails exactly if n is in fails. */
  method ImportKeys(kv: Bucket, keys: seq<ExportedKey>, fails: set<nat>, envelope: Bytes -> bool)
    returns (r: Report, ghost done: nat)
    modifies kv
    ensures !AllAcceptable(keys, envelope) ==>
              && kv.entries == old(kv.entries) && r.error.Some? && FirstFault(keys, envelope, r.error.value)
              && r.imported == r.skippedExisting == r.skippedWrappedDEKs == 0
    ensures AllAcceptable(keys, envelope) ==>
              && done <= |Importable(keys)| && (forall n :: 0 <= n < done ==> n !in fails)
              && (if r.error.None? then done == |Importable(keys)| else done < |Importable(keys)| && done in fails)
              && kv.entries == Merge(old(kv.entries), Importable(keys)[..done])
              && r.imported == |kv.entries| - |old(kv.entries)|
              && r.imported + r.skippedExisting == done
              && r.skippedWrappedDEKs == |keys| - |Importable(keys)|
              && (r.error.Some? ==> r.error.value == Unavailable)
  {
    var importable, skippedWrappedDEKs, invalid := SelectImportable(keys, envelope);
    if invalid.Some? {
      FaultIsNotAcceptable(keys, envelope, invalid.value);
      return Report(0, 0, 0, invalid), 0;
    }
    var imported, skippedExisting, error, count := CreateAll(kv, importable, fails);
    r, done := Report(imported, skippedExisting, skippedWrappedDEKs, error), count;
  }

  // ---- Export ----

  datatype Selection = Selection(keys: seq<ExportedKey>, skippedWrappedDEKs: nat, skippedCallKeys: nat)

  function ExportKey(ref: string, data: Bytes): ExportedKey {
    ExportedKey(ref, if HasPrefix(ref, USER_PREFIX) then ref[|USER_PREFIX|..] else "", data)
  }

  ghost predicate Lists(listing: seq<string>, entries: map<string, Bytes>) {
    forall ref :: ref in listing <==> ref in entries
  }

  function ExportedKeys(listing: seq<string>, entries: map<string, Bytes>): (keys: seq<ExportedKey>)
    requires forall i :: 0 <= i < |listing| ==> listing[i] in entries
  {
    if listing == [] then []
    else
      var n := |listing| - 1;
      var ref := listing[n];
      ExportedKeys(listing[..n], entries) + (if IsPortable(ref) then [ExportKey(ref, entries[ref])] else [])
  }

  function CountWith(listing: seq<string>, prefix: string): nat {
    if listing == [] then 0
    else CountWith(listing[..|listing| - 1], prefix) + (if HasPrefix(listing[|listing| - 1], prefix) then 1 else 0)
  }

  lemma PrefixesDiffer(ref: string)
    ensures HasPrefix(ref, DEK_PREFIX) ==> !HasPrefix(ref, CALL_PREFIX)
  {
    assert HasPrefix(ref, DEK_PREFIX) ==> ref[0] == 'd';
  }

  predicate CanExport(
    listing: seq<string>, entries: map<string, Bytes>, unreadable: set<string>, envelope: Bytes -> bool)
  {
    forall i :: 0 <= i < |listing| && IsPortable(listing[i]) ==>
      && listing[i] !in unreadable && listing[i] in entries
      && ValidateKEKRecord(listing[i], entries[listing[i]], envelope).None?
  }

  /** The order of the listing is the bucket's; reading a key fails exactly if its ref is unreadable. */
  method ExportAllKeys(
    kv: Bucket, listing: Result<seq<string>, KeyError>, unreadable: set<string>, envelope: Bytes -> bool)
    returns (r: Result<Selection, KeyError>)
    requires listing.Ok? ==> Lists(listing.value, kv.entries)
    ensures r.Ok? <==> listing.Ok? && CanExport(listing.value, kv.entries, unreadable, envelope)
    ensures r.Ok? ==> r.value.keys == ExportedKeys(listing.value, kv.entries)
    ensures r.Ok? ==> r.value.skippedWrappedDEKs == CountWith(listing.value, DEK_PREFIX)
    ensures r.Ok? ==> r.value.skippedCallKeys == CountWith(listing.value, CALL_PREFIX)
    ensures r.Ok? ==> |r.value.keys| + r.value.skippedWrappedDEKs + r.value.skippedCallKeys == |listing.value|
  {
    hide HasPrefix, ValidateKEKRecord, ExportKey;
    if listing.Err? {
      return Err(listing.error);
    }
    var refs := listing.value;
    var selection := Selection([], 0, 0);
    for i := 0 to |refs|
      invariant selection.keys == ExportedKeys(refs[..i], kv.entries)
      invariant CanExport(refs[..i], kv.entries, unreadable, envelope)
      invariant selection.skippedWrappedDEKs == CountWith(refs[..i], DEK_PREFIX)
      invariant selection.skippedCallKeys == CountWith(refs[..i], CALL_PREFIX)
      invariant |selection.keys| + selection.skippedWrappedDEKs + selection.skippedCallKeys == i
    {
      var ref := refs[i];
      assert refs[..i + 1][..i] == refs[..i];
      PrefixesDiffer(ref);
      if HasPrefix(ref, DEK_PREFIX) {
        selection := selection.(skippedWrappedDEKs := selection.skippedWrappedDEKs + 1);
      } else if HasPrefix(ref, CALL_PREFIX) {
        selection := selection.(skippedCallKeys := selection.skippedCallKeys + 1);
      } else {
        if ref in unreadable {
          return Err(Unavailable);
        }
        var invalid := ValidateKEKRecord(ref, kv.entries[ref], envelope);
        if invalid.Some? {
          return Err(invalid.value);
        }
        selection := selection.(keys := selection.keys + [ExportKey(ref, kv.entries[ref])]);
      }
    }
    assert refs[..|refs|] == refs;
    r := Ok(selection);
  }

  // ---- What a merge keeps and adds ----

  lemma {:induction false} MergeKeepsEntries(entries: map<string, Bytes>, list: seq<Record>, ref: string)
    requires ref in entries
    ensures ref in Merge(entries, list) && Merge(entries, list)[ref] == entries[ref]
  {
    if list != [] {
      MergeKeepsEntries(entries, list[..|list| - 1], ref);
    }
  }

  /** A new ref comes from the first record that carries it. */
  lemma {:induction false} MergeAddsFirst(entries: map<string, Bytes>, list: seq<Record>, ref: string)
    requires ref !in entries
    ensures ref in Merge(entries, list) <==> exists i :: 0 <= i < |list| && list[i].ref == ref
    ensures forall i :: 0 <= i < |list| && list[i].ref == ref && (forall j :: 0 <= j < i ==> list[j].ref != ref) ==>
              Merge(entries, list)[ref] == list[i].key
  {
    if list != [] {
      var n := |list| - 1;
      MergeAddsFirst(entries, list[..n], ref);
      assert forall i :: 0 <= i < n ==> list[..n][i] == list[i];
    }
  }

  lemma {:induction false} MergeOfPresent(entries: map<string, Bytes>, list: seq<Record>)
    requires forall i :: 0 <= i < |list| ==> list[i].ref in entries
    ensures Merge(entries, list) == entries
  {
    if list != [] {
      MergeOfPresent(entries, list[..|list| - 1]);
    }
  }

  /** A second import of the same keys finds every ref and adds nothing. */
  lemma SecondImportAddsNothing(entries: map<string, Bytes>, list: seq<Record>)
    ensures Merge(Merge(entries, list), list) == Merge(entries, list)
  {
    forall i | 0 <= i < |list| ensures list[i].ref in Merge(entries, list) {
      if list[i].ref in entries {
        MergeKeepsEntries(entries, list, list[i].ref);
      } else {
        MergeAddsFirst(entries, list, list[i].ref);
      }
    }
    MergeOfPresent(Merge(entries, list), list);
  }

  // ---- From one bucket to another ----

  lemma ExportedKeyIsImported(ref: string, data: Bytes, envelope: Bytes -> bool)
    requires IsPortable(ref) && ValidateKEKRecord(ref, data, envelope).None?
    ensures var k := ExportKey(ref, data);
            KeyRefForImport(k) == ref && k.key == data && !IsWrapped(k) && ValidateExportedKey(k, envelope) == Ok(ref)
  {
  }

  /** The user id alone, as older key files carry it, names the same key; keys of other kinds have none. */
  lemma UserIdNamesSameKey(ref: string, data: Bytes)
    requires ref != USER_PREFIX
    ensures KeyRefForImport(ExportKey(ref, data).(keyRef := "")) == if HasPrefix(ref, USER_PREFIX) then ref else ""
  {
  }

  predicate IsExportOf(x: Record, listing: seq<string>, entries: map<string, Bytes>) {
    x.ref in listing && IsPortable(x.ref) && x.ref in entries && x.key == entries[x.ref]
  }

  /** One more portable key: one more record to import, acceptable and of the same ref and bytes. */
  lemma ExportsOneMore(keys: seq<ExportedKey>, ref: string, data: Bytes, envelope: Bytes -> bool)
    requires IsPortable(ref) && ValidateKEKRecord(ref, data, envelope).None?
    ensures Importable(keys + [ExportKey(ref, data)]) == Importable(keys) + [Record(ref, data)]
    ensures AllAcceptable(keys, envelope) ==> AllAcceptable(keys + [ExportKey(ref, data)], envelope)
  {
  }

  /** What an import takes in from an export: one record for each portable ref of the listing, in order. */
  function PortableRecords(listing: seq<string>, entries: map<string, Bytes>): (list: seq<Record>)
    requires forall i :: 0 <= i < |listing| ==> listing[i] in entries
  {
    if listing == [] then []
    else
      var n := |listing| - 1;
      var ref := listing[n];
      PortableRecords(listing[..n], entries) + (if IsPortable(ref) then [Record(ref, entries[ref])] else [])
  }

  lemma {:induction false} ExportsAreImportable(
    listing: seq<string>, entries: map<string, Bytes>, unreadable: set<string>, envelope: Bytes -> bool)
    requires forall i :: 0 <= i < |listing| ==> listing[i] in entries
    requires CanExport(listing, entries, unreadable, envelope)
    ensures AllAcceptable(ExportedKeys(listing, entries), envelope)
    ensures Importable(ExportedKeys(listing, entries)) == PortableRecords(listing, entries)
  {
    hide ValidateKEKRecord, Importable, AllAcceptable, IsPortable, ExportKey;
    if listing == [] {
      NothingToImport(envelope);
    } else {
      var n := |listing| - 1;
      ExportsAreImportable(listing[..n], entries, unreadable, envelope);
      var earlier := ExportedKeys(listing[..n], entries);
      if IsPortable(listing[n]) {
        ExportsOneMore(earlier, listing[n], entries[listing[n]], envelope);
      } else {
        assert earlier + [] == earlier;
      }
    }
  }

  lemma NothingToImport(envelope: Bytes -> bool)
    ensures AllAcceptable([], envelope) && Importable([]) == []
  {
  }

  lemma {:induction false} PortableRecordsAreThose(listing: seq<string>, entries: map<string, Bytes>)
    requires forall i :: 0 <= i < |listing| ==> listing[i] in entries
    ensures forall i :: 0 <= i < |PortableRecords(listing, entries)| ==>
              IsExportOf(PortableRecords(listing, entries)[i], listing, entries)
    ensures forall ref :: ref in listing && IsPortable(ref) ==>
              var list := PortableRecords(listing, entries);
              exists i :: 0 <= i < |list| && list[i].ref == ref
  {
    hide IsPortable;
    if listing != [] {
      var n := |listing| - 1;
      PortableRecordsAreThose(listing[..n], entries);
      var earlier, all := PortableRecords(listing[..n], entries), PortableRecords(listing, entries);
      assert listing == listing[..n] + [listing[n]];
      forall ref | ref in listing && IsPortable(ref) ensures exists i :: 0 <= i < |all| && all[i].ref == ref {
        if ref in listing[..n] {
          var i :| 0 <= i < |earlier| && earlier[i].ref == ref;
          assert all[i].ref == ref;
        } else {
          assert all[|earlier|].ref == ref;
        }
      }
    }
  }

  /** The target keeps what it has and gains the portable records of the source under refs it lacks. */
  function Extended(target: map<string, Bytes>, source: map<string, Bytes>): map<string, Bytes> {
    map ref | ref in target.Keys + source.Keys && (ref in target || IsPortable(ref)) ::
      if ref in target then target[ref] else source[ref]
  }

  /** Export then import: accepted without exception, and the target becomes exactly its extension by the source. */
  lemma ExportThenImport(
    source: map<string, Bytes>, listing: seq<string>, unreadable: set<string>, envelope: Bytes -> bool,
    target: map<string, Bytes>)
    requires Lists(listing, source) && CanExport(listing, source, unreadable, envelope)
    ensures var keys := ExportedKeys(listing, source);
            AllAcceptable(keys, envelope) && Merge(target, Importable(keys)) == Extended(target, source)
  {
    hide Importable, ExportedKeys, AllAcceptable;
    ExportsAreImportable(listing, source, unreadable, envelope);
    MergeOfPortable(source, listing, target);
  }

  lemma MergeOfPortable(source: map<string, Bytes>, listing: seq<string>, target: map<string, Bytes>)
    requires Lists(listing, source)
    ensures Merge(target, PortableRecords(listing, source)) == Extended(target, source)
  {
    hide Merge, PortableRecords, IsPortable;
    var list := PortableRecords(listing, source);
    var result := Merge(target, list);
    PortableRecordsAreThose(listing, source);
    forall ref: string
      ensures ref in result <==> ref in Extended(target, source)
      ensures ref in result ==> result[ref] == Extended(target, source)[ref]
    {
      if ref in target {
        MergeKeepsEntries(target, list, ref);
      } else {
        MergeAddsFirst(target, list, ref);
        if ref in result {
          var i := FirstWith(list, ref);
          assert IsExportOf(list[i], listing, source);
        }
      }
    }
  }

  lemma {:induction false} FirstWith(list: seq<Record>, ref: string) returns (i: nat)
    requires exists j :: 0 <= j < |list| && list[j].ref == ref
    ensures i < |list| && list[i].ref == ref && forall j :: 0 <= j < i ==> list[j].ref != ref
  {
    i := 0;
    while list[i].ref != ref
      invariant i < |list| && forall j :: 0 <= j < i ==> list[j].ref != ref
      decreases |list| - i
    {
      i := i + 1;
    }
  }
}
