/** The byte stream that the idempotency fingerprint of a create-message request hashes. */
module Fingerprint {
  import opened Common
  import opened ByteStrings
  import opened BigEndian

  /** Strings are the bytes of their UTF-8 encoding. */
  datatype Request = Request(
    roomId: Bytes, body: Bytes, attachmentAssetIds: seq<Bytes>, threadRootEventId: Bytes, inReplyTo: Bytes,
    alsoSendToChannel: bool, linkPreviewToken: Bytes)

  predicate Fits(s: Bytes) {
    |s| < UINT64_LIMIT
  }

  predicate AllFit(list: seq<Bytes>) {
    forall i :: 0 <= i < |list| ==> Fits(list[i])
  }

  /** Every length of the request is an unsigned 64-bit integer. */
  predicate Encodable(r: Request) {
    && Fits(r.roomId) && Fits(r.body) && Fits(r.threadRootEventId) && Fits(r.inReplyTo) && Fits(r.linkPreviewToken)
    && |r.attachmentAssetIds| < UINT64_LIMIT && AllFit(r.attachmentAssetIds)
  }

  function Field(s: Bytes): Bytes {
    Digits(|s|, 8) + s
  }

  function Fields(list: seq<Bytes>): Bytes {
    if list == [] then [] else Fields(list[..|list| - 1]) + Field(list[|list| - 1])
  }

  function List(list: seq<Bytes>): Bytes {
    Digits(|list|, 8) + Fields(list)
  }

  function Flag(b: bool): Bytes {
    if b then [1] else [0]
  }

  function PreImage(r: Request): Bytes {
    Field(r.roomId) + Field(r.body) + List(r.attachmentAssetIds) + Field(r.threadRootEventId) + Field(r.inReplyTo)
    + Flag(r.alsoSendToChannel) + Field(r.linkPreviewToken)
  }

  // ---- Writing the stream into a hash ----

  /** A hash state remembers what was written to it; the digest of that is a parameter. */
  class Hash {
    var written: Bytes

    constructor ()
      ensures written == []
    {
      written := [];
    }

    method Write(s: Bytes)
      modifies this
      ensures written == old(written) + s
    {
      written := written + s;
    }

    method WriteCount(n: nat)
      requires n < UINT64_LIMIT
      modifies this
      ensures written == old(written) + Digits(n, 8)
    {
      var length := new Byte[8];
      PutUint64(length, 0, n);
      Write(length[..]);
    }

    method WriteString(value: Bytes)
      requires Fits(value)
      modifies this
      ensures written == old(written) + Field(value)
    {
      WriteCount(|value|);
      Write(value);
    }
  }

  method CreateMessageRequestFingerprint(req: Request, digest: Bytes -> Bytes) returns (sum: Bytes)
    requires Encodable(req)
    ensures sum == digest(PreImage(req))
  {
    hide Field, Digits, Flag;
    var list := req.attachmentAssetIds;
    var h := new Hash();
    h.WriteString(req.roomId);
    h.WriteString(req.body);
    ghost var front := h.written;
    assert front == Field(req.roomId) + Field(req.body);
    h.WriteCount(|list|);
    ghost var count := Digits(|list|, 8);
    assert h.written == front + (count + Fields(list[..0]));
    for i := 0 to |list|
      invariant h.written == front + (count + Fields(list[..i]))
    {
      h.WriteString(list[i]);
      assert list[..i + 1][..i] == list[..i];
      Associates(front, count, Fields(list[..i]), Field(list[i]));
    }
    assert list[..|list|] == list;
    assert h.written == front + List(list);
    hide List;
    h.WriteString(req.threadRootEventId);
    h.WriteString(req.inReplyTo);
    h.Write(Flag(req.alsoSendToChannel));
    h.WriteString(req.linkPreviewToken);
    sum := digest(h.written);
  }

  lemma Associates(a: Bytes, b: Bytes, c: Bytes, d: Bytes)
    ensures a + (b + c) + d == a + (b + (c + d))
  {
  }

  // ---- Reading it back ----

  /** What stands at the front of a stream, and what follows it. */
  datatype Read<T> = Read(value: T, rest: Bytes) | Broken

  function ReadCount(s: Bytes): Read<nat> {
    if |s| < 8 then Broken else Read(Value(s[..8]), s[8..])
  }

  function ReadField(s: Bytes): Read<Bytes> {
    var n := ReadCount(s);
    if n.Broken? || n.value > |n.rest| then Broken else Read(n.rest[..n.value], n.rest[n.value..])
  }

  function ReadFields(s: Bytes, n: nat): Read<seq<Bytes>> {
    if n == 0 then Read([], s)
    else
      var earlier := ReadFields(s, n - 1);
      if earlier.Broken? then Broken
      else
        var last := ReadField(earlier.rest);
        if last.Broken? then Broken else Read(earlier.value + [last.value], last.rest)
  }

  function ReadList(s: Bytes): Read<seq<Bytes>> {
    var n := ReadCount(s);
    if n.Broken? then Broken else ReadFields(n.rest, n.value)
  }

  function ReadFlag(s: Bytes): Read<bool> {
    if s == [] || s[0] > 1 then Broken else Read(s[0] == 1, s[1..])
  }

  function ReadRequest(s: Bytes): Read<Request> {
    var room := ReadField(s);
    if room.Broken? then Broken else
    var body := ReadField(room.rest);
    if body.Broken? then Broken else
    var assets := ReadList(body.rest);
    if assets.Broken? then Broken else
    var thread := ReadField(assets.rest);
    if thread.Broken? then Broken else
    var reply := ReadField(thread.rest);
    if reply.Broken? then Broken else
    var echo := ReadFlag(reply.rest);
    if echo.Broken? then Broken else
    var token := ReadField(echo.rest);
    if token.Broken? then Broken else
    Read(Request(room.value, body.value, assets.value, thread.value, reply.value, echo.value, token.value), token.rest)
  }

  lemma ReadsCount(n: nat, rest: Bytes)
    requires n < UINT64_LIMIT
    ensures ReadCount(Digits(n, 8) + rest) == Read(n, rest)
  {
    Uint64RoundTrip(n);
    assert (Digits(n, 8) + rest)[..8] == Digits(n, 8);
  }

  lemma ReadsField(s: Bytes, rest: Bytes)
    requires Fits(s)
    ensures ReadField(Field(s) + rest) == Read(s, rest)
  {
    hide Digits, ReadCount;
    ReadsCount(|s|, s + rest);
    assert Field(s) + rest == Digits(|s|, 8) + (s + rest);
  }

  lemma {:induction false} ReadsFields(list: seq<Bytes>, rest: Bytes)
    requires AllFit(list)
    ensures ReadFields(Fields(list) + rest, |list|) == Read(list, rest)
  {
    hide Field, ReadField;
    if list == [] {
      assert Fields(list) + rest == rest;
    } else {
      var k := |list| - 1;
      ReadsFields(list[..k], Field(list[k]) + rest);
      ReadsField(list[k], rest);
      assert Fields(list) + rest == Fields(list[..k]) + (Field(list[k]) + rest);
      assert list == list[..k] + [list[k]];
    }
  }

  lemma ReadsList(list: seq<Bytes>, rest: Bytes)
    requires |list| < UINT64_LIMIT && AllFit(list)
    ensures ReadList(List(list) + rest) == Read(list, rest)
  {
    hide Digits, ReadCount, Fields, ReadFields;
    ReadsCount(|list|, Fields(list) + rest);
    ReadsFields(list, rest);
    assert List(list) + rest == Digits(|list|, 8) + (Fields(list) + rest);
  }

  lemma ReadsFlag(b: bool, rest: Bytes)
    ensures ReadFlag(Flag(b) + rest) == Read(b, rest)
  {
  }

  lemma Regroups(a: Bytes, b: Bytes, c: Bytes, d: Bytes, e: Bytes, f: Bytes, g: Bytes, rest: Bytes)
    ensures a + b + c + d + e + f + g + rest == a + (b + (c + (d + (e + (f + (g + rest))))))
  {
  }

  /** The stream of a request can be read back, whatever follows it. */
  lemma ReadsPreImage(r: Request, rest: Bytes)
    requires Encodable(r)
    ensures ReadRequest(PreImage(r) + rest) == Read(r, rest)
  {
    hide Field, List, Flag, ReadField, ReadList, ReadFlag;
    var s6 := Field(r.linkPreviewToken) + rest;
    var s5 := Flag(r.alsoSendToChannel) + s6;
    var s4 := Field(r.inReplyTo) + s5;
    var s3 := Field(r.threadRootEventId) + s4;
    var s2 := List(r.attachmentAssetIds) + s3;
    var s1 := Field(r.body) + s2;
    Regroups(Field(r.roomId), Field(r.body), List(r.attachmentAssetIds), Field(r.threadRootEventId),
             Field(r.inReplyTo), Flag(r.alsoSendToChannel), Field(r.linkPreviewToken), rest);
    ReadsField(r.roomId, s1);
    ReadsField(r.body, s2);
    ReadsList(r.attachmentAssetIds, s3);
    ReadsField(r.threadRootEventId, s4);
    ReadsField(r.inReplyTo, s5);
    ReadsFlag(r.alsoSendToChannel, s6);
    ReadsField(r.linkPreviewToken, rest);
  }

  /** No stream is a prefix of another: equal fingerprints of different requests take a collision of the digest. */
  lemma PreImageIsPrefixFree(r: Request, q: Request, after: Bytes)
    requires Encodable(r) && Encodable(q) && PreImage(r) + after == PreImage(q)
    ensures r == q && after == []
  {
    hide PreImage, ReadRequest;
    ReadsPreImage(r, after);
    ReadsPreImage(q, []);
    assert PreImage(q) + [] == PreImage(q);
  }
}
