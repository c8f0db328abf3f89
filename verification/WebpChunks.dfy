/** The chunks of a RIFF/WebP container (RFC 9649 sections 2.3 and 2.7), and the two walks over them. */
module WebpChunks {
  import opened Common
  import opened ByteStrings

  const RIFF: Bytes := [0x52, 0x49, 0x46, 0x46]
  const WEBP: Bytes := [0x57, 0x45, 0x42, 0x50]
  const ANIM: Bytes := [0x41, 0x4e, 0x49, 0x4d]
  const ANMF: Bytes := [0x41, 0x4e, 0x4d, 0x46]
  const VP8X: Bytes := [0x56, 0x50, 0x38, 0x58]

  const WORDS := 0x1_0000_0000

  datatype WebpError = NotWebp | InvalidRiffSize | InvalidChunk | InvalidAnim | MissingAnim

  function Tag(data: Bytes, offset: nat): Bytes
    requires offset + 4 <= |data|
  {
    data[offset..offset + 4]
  }

  /** A little-endian word of four bytes. */
  function Word(data: Bytes, offset: nat): (n: nat)
    requires offset + 4 <= |data|
    ensures n < WORDS
  {
    data[offset] as nat
    + 256 * (data[offset + 1] as nat + 256 * (data[offset + 2] as nat + 256 * data[offset + 3] as nat))
  }

  function PrintWord(n: nat): (s: Bytes)
    requires n < WORDS
    ensures |s| == 4
  {
    [(n % 256) as Byte, (n / 256 % 256) as Byte, (n / 256 / 256 % 256) as Byte, (n / 256 / 256 / 256) as Byte]
  }

  lemma WordOfSlice(data: Bytes, offset: nat)
    requires offset + 4 <= |data|
    ensures Word(data[offset..offset + 4], 0) == Word(data, offset)
  {
  }

  /** A chunk's tag and size, read from the buffer. */
  method ReadChunkHead(data: array<Byte>, offset: nat) returns (tag: Bytes, size: nat)
    requires offset + 8 <= data.Length
    ensures tag == Tag(data[..], offset) && size == Word(data[..], offset + 4)
  {
    tag, size := data[offset..offset + 4], Word(data[offset + 4..offset + 8], 0);
    WordOfSlice(data[..], offset + 4);
    assert data[offset + 4..offset + 8] == data[..][offset + 4..offset + 8];
  }

  // ---- The loop rewriter ----

  /** The payload of the first ANIM chunk among the chunks from `offset` to `end`. */
  function FindAnim(data: Bytes, end: nat, offset: nat): (r: Result<nat, WebpError>)
    requires end <= |data|
    ensures r.Ok? ==> offset + 8 <= r.value && r.value + 6 <= end
    decreases end - offset
  {
    if offset + 8 > end then Err(MissingAnim)
    else
      var size := Word(data, offset + 4);
      var payload := offset + 8;
      if payload + size > end then Err(InvalidChunk)
      else if Tag(data, offset) == ANIM then (if size < 6 then Err(InvalidAnim) else Ok(payload))
      else FindAnim(data, end, payload + size + size % 2)
  }

  predicate IsWebp(data: Bytes) {
    |data| >= 12 && Tag(data, 0) == RIFF && Tag(data, 8) == WEBP
  }

  /** Where the RIFF container ends. */
  function Extent(data: Bytes): nat
    requires |data| >= 12
  {
    Word(data, 4) + 8
  }

  function LocateAnim(data: Bytes): (r: Result<nat, WebpError>)
    ensures r.Ok? ==> IsWebp(data) && 20 <= r.value && r.value + 6 <= Extent(data) <= |data|
  {
    if !IsWebp(data) then Err(NotWebp)
    else if Extent(data) > |data| || Extent(data) < 12 then Err(InvalidRiffSize)
    else FindAnim(data, Extent(data), 12)
  }

  function ZeroLoop(data: Bytes, payload: nat): (s: Bytes)
    requires payload + 6 <= |data|
    ensures |s| == |data|
  {
    data[payload + 4 := 0][payload + 5 := 0]
  }

  /** The buffer after a rewrite: unchanged on every error. */
  function Rewritten(data: Bytes): (s: Bytes)
    ensures |s| == |data|
  {
    var found := LocateAnim(data);
    if found.Err? then data else ZeroLoop(data, found.value)
  }

  lemma SearchStep(data: Bytes, end: nat, offset: nat)
    requires end <= |data| && offset + 8 <= end
    ensures var size := Word(data, offset + 4);
            FindAnim(data, end, offset) ==
            if offset + 8 + size > end then Err(InvalidChunk)
            else if Tag(data, offset) != ANIM then FindAnim(data, end, offset + 8 + size + size % 2)
            else if size < 6 then Err(InvalidAnim) else Ok(offset + 8)
  {
  }

  lemma SearchEnds(data: Bytes, end: nat, offset: nat)
    requires end <= |data| && offset + 8 > end
    ensures FindAnim(data, end, offset) == Err(MissingAnim)
  {
  }

  lemma RewritesFound(data: Bytes, payload: nat)
    requires LocateAnim(data) == Ok(payload)
    ensures Rewritten(data) == data[payload + 4 := 0][payload + 5 := 0]
  {
  }

  lemma ErrorLeavesBytes(data: Bytes)
    requires LocateAnim(data).Err?
    ensures Rewritten(data) == data
  {
  }

  method ForceAnimatedWebPLoopForever(data: array<Byte>) returns (r: Result<(), WebpError>)
    modifies data
    ensures data[..] == Rewritten(old(data[..]))
    ensures r == match LocateAnim(old(data[..])) case Err(e) => Err(e) case Ok(_) => Ok(())
  {
    hide Word;
    ghost var was := data[..];
    if LocateAnim(was).Err? {
      ErrorLeavesBytes(was);
    }
    if data.Length < 12 || data[..4] != RIFF || data[8..12] != WEBP {
      return Err(NotWebp);
    }
    var riffEnd := Word(data[4..8], 0) + 8;
    WordOfSlice(was, 4);
    if riffEnd > data.Length || riffEnd < 12 {
      return Err(InvalidRiffSize);
    }
    var offset := 12;
    assert FindAnim(was, riffEnd, offset) == LocateAnim(was);
    hide *;
    while offset + 8 <= riffEnd
      invariant data[..] == was
      invariant FindAnim(was, riffEnd, offset) == LocateAnim(was)
      decreases riffEnd - offset
    {
      SearchStep(was, riffEnd, offset);
      var chunkType, chunkSize := ReadChunkHead(data, offset);
      var payloadStart := offset + 8;
      var payloadEnd := payloadStart + chunkSize;
      if payloadEnd > riffEnd {
        return Err(InvalidChunk);
      }
      if chunkType == ANIM {
        if chunkSize < 6 {
          return Err(InvalidAnim);
        }
        data[payloadStart + 4] := 0;
        data[payloadStart + 5] := 0;
        assert data[..] == was[payloadStart + 4 := 0][payloadStart + 5 := 0];
        RewritesFound(was, payloadStart);
        return Ok(());
      }
      offset := payloadEnd;
      if chunkSize % 2 != 0 {
        offset := offset + 1;
      }
    }
    SearchEnds(was, riffEnd, offset);
    r := Err(MissingAnim);
  }

  // ---- The animation detector ----

  /** An animation or frame chunk, or an extended header with its animation bit (the second lowest) set. */
  predicate ShowsAnimation(data: Bytes, offset: nat)
    requires offset + 8 <= |data|
  {
    || Tag(data, offset) == ANIM
    || Tag(data, offset) == ANMF
    || (Tag(data, offset) == VP8X && Word(data, offset + 4) >= 10
        && offset + 9 <= |data| && data[offset + 8] / 2 % 2 == 1)
  }

  predicate DetectFrom(data: Bytes, offset: nat)
    decreases |data| - offset
  {
    && offset + 8 <= |data|
    && (ShowsAnimation(data, offset) ||
        var size := Word(data, offset + 4);
        8 + size + size % 2 <= |data| - offset && DetectFrom(data, offset + 8 + size + size % 2))
  }

  predicate IsAnimated(data: Bytes) {
    |data| >= 20 && IsWebp(data) && DetectFrom(data, 12)
  }

  method IsAnimatedProfileBannerWebP(data: array<Byte>) returns (animated: bool)
    ensures animated == IsAnimated(data[..])
  {
    hide Word;
    ghost var bytes := data[..];
    if data.Length < 20 || data[..4] != RIFF || data[8..12] != WEBP {
      return false;
    }
    var offset := 12;
    assert DetectFrom(bytes, offset) == IsAnimated(bytes);
    hide IsAnimated, IsWebp, Tag;
    while offset + 8 <= data.Length
      invariant DetectFrom(bytes, offset) == IsAnimated(bytes)
      decreases data.Length - offset
    {
      var chunkType, chunkSize := ReadChunkHead(data, offset);
      if chunkType == ANIM || chunkType == ANMF {
        return true;
      }
      if chunkType == VP8X && chunkSize >= 10 && offset + 9 <= data.Length && data[offset + 8] / 2 % 2 == 1 {
        return true;
      }
      var advance := 8 + chunkSize + chunkSize % 2;
      if advance > data.Length - offset {
        return false;
      }
      offset := offset + advance;
    }
    animated := false;
  }

  // ---- What a rewrite keeps ----

  /** The search reads nothing from the payload it finds on. */
  lemma {:induction false} SearchReadsPrefix(data: Bytes, other: Bytes, end: nat, offset: nat)
    requires end <= |data| == |other| && FindAnim(data, end, offset).Ok?
    requires data[..FindAnim(data, end, offset).value] == other[..FindAnim(data, end, offset).value]
    ensures FindAnim(other, end, offset) == FindAnim(data, end, offset)
    decreases end - offset
  {
    hide Word, Tag;
    var found := FindAnim(data, end, offset).value;
    SamePrefix(data, other, found, offset);
    if Tag(data, offset) != ANIM {
      var size := Word(data, offset + 4);
      SearchReadsPrefix(data, other, end, offset + 8 + size + size % 2);
    }
  }

  lemma SamePrefix(data: Bytes, other: Bytes, n: nat, offset: nat)
    requires offset + 8 <= n <= |data| == |other| && data[..n] == other[..n]
    ensures Tag(data, offset) == Tag(other, offset) && Word(data, offset + 4) == Word(other, offset + 4)
  {
  }

  lemma ZeroLoopKeepsPrefix(data: Bytes, payload: nat)
    requires payload + 6 <= |data|
    ensures ZeroLoop(data, payload)[..payload] == data[..payload]
  {
  }

  lemma RewriteKeepsAnim(data: Bytes)
    requires LocateAnim(data).Ok?
    ensures LocateAnim(Rewritten(data)) == LocateAnim(data)
  {
    var found := LocateAnim(data).value;
    var other := Rewritten(data);
    hide Word, Tag, FindAnim, ZeroLoop;
    ZeroLoopKeepsPrefix(data, found);
    SamePrefix(data, other, found, 0);
    SamePrefix(data, other, found, 4);
    SearchReadsPrefix(data, other, Extent(data), 12);
  }

  /** A second rewrite finds the same chunk and changes nothing. */
  lemma RewriteIsIdempotent(data: Bytes)
    ensures Rewritten(Rewritten(data)) == Rewritten(data)
  {
    if LocateAnim(data).Ok? {
      RewriteKeepsAnim(data);
    }
  }

  /** A rewrite touches two bytes at most, both inside the RIFF extent and past the chunk headers. */
  lemma RewriteStaysInside(data: Bytes, i: nat)
    requires i < |data| && Rewritten(data)[i] != data[i]
    ensures LocateAnim(data).Ok? && LocateAnim(data).value + 4 <= i <= LocateAnim(data).value + 5
    ensures 24 <= i < Extent(data) && Rewritten(data)[i] == 0
  {
  }

  /** Whatever chunk the rewriter finds within the RIFF extent, the detector finds in the whole buffer. */
  lemma {:induction false} DetectorFindsAnim(data: Bytes, end: nat, offset: nat)
    requires end <= |data| && FindAnim(data, end, offset).Ok?
    ensures DetectFrom(data, offset)
    decreases end - offset
  {
    hide Word, Tag;
    if Tag(data, offset) != ANIM {
      var size := Word(data, offset + 4);
      DetectorFindsAnim(data, end, offset + 8 + size + size % 2);
    }
  }

  /** Every buffer the rewriter accepts counts as animated, before the rewrite and after it. */
  lemma WalkersAgree(data: Bytes)
    requires LocateAnim(data).Ok?
    ensures IsAnimated(data) && IsAnimated(Rewritten(data))
  {
    DetectorFindsAnim(data, Extent(data), 12);
    RewriteKeepsAnim(data);
    DetectorFindsAnim(Rewritten(data), Extent(Rewritten(data)), 12);
  }

  // ---- Printed containers ----

  /** The pad byte is written only after a payload of odd length. */
  datatype Chunk = Chunk(tag: Bytes, payload: Bytes, pad: Byte)
  {
    predicate WellFormed() {
      |tag| == 4 && |payload| < WORDS
    }
  }

  predicate AllWellFormed(chunks: seq<Chunk>) {
    forall i :: 0 <= i < |chunks| ==> chunks[i].WellFormed()
  }

  function PrintHead(tag: Bytes, size: nat): (s: Bytes)
    requires |tag| == 4 && size < WORDS
    ensures |s| == 8
  {
    tag + PrintWord(size)
  }

  function PrintChunk(c: Chunk): (s: Bytes)
    requires c.WellFormed()
    ensures |s| == 8 + |c.payload| + |c.payload| % 2
  {
    PrintHead(c.tag, |c.payload|) + c.payload + (if |c.payload| % 2 == 1 then [c.pad] else [])
  }

  function PrintChunks(chunks: seq<Chunk>): Bytes
    requires AllWellFormed(chunks)
  {
    if chunks == [] then [] else PrintChunk(chunks[0]) + PrintChunks(chunks[1..])
  }

  /** A container and the bytes after its extent. */
  datatype Webp = Webp(chunks: seq<Chunk>, rest: Bytes)
  {
    predicate WellFormed() {
      AllWellFormed(chunks) && 4 + |PrintChunks(chunks)| < WORDS
    }
  }

  function PrintHeader(size: nat): (s: Bytes)
    requires size < WORDS
    ensures |s| == 12
  {
    PrintHead(RIFF, size) + WEBP
  }

  function Print(w: Webp): Bytes
    requires w.WellFormed()
  {
    PrintHeader(4 + |PrintChunks(w.chunks)|) + PrintChunks(w.chunks) + w.rest
  }

  ghost predicate NoAnim(chunks: seq<Chunk>) {
    forall i :: 0 <= i < |chunks| ==> chunks[i].tag != ANIM
  }

  lemma LowestDigit(b: Byte, n: nat)
    ensures (b as nat + 256 * n) % 256 == b as nat && (b as nat + 256 * n) / 256 == n
  {
  }

  lemma ReadsPrintedWord(data: Bytes, offset: nat, n: nat)
    requires n < WORDS && Holds(data, offset, PrintWord(n))
    ensures Word(data, offset) == n
  {
  }

  lemma WordIsPrinted(data: Bytes, offset: nat)
    requires offset + 4 <= |data|
    ensures data[offset..offset + 4] == PrintWord(Word(data, offset))
  {
    var second, third, fourth := data[offset + 1], data[offset + 2], data[offset + 3];
    LowestDigit(data[offset], second as nat + 256 * (third as nat + 256 * fourth as nat));
    LowestDigit(second, third as nat + 256 * fourth as nat);
    LowestDigit(third, fourth as nat);
  }

  /** A chunk head stands at an offset exactly if its tag and its size are read there. */
  lemma ReadsHead(data: Bytes, offset: nat, tag: Bytes, size: nat)
    requires |tag| == 4 && size < WORDS && offset + 8 <= |data|
    ensures Holds(data, offset, PrintHead(tag, size)) <==> Tag(data, offset) == tag && Word(data, offset + 4) == size
  {
    hide Word, PrintWord;
    HoldsBoth(data, offset, tag, PrintWord(size));
    WordIsPrinted(data, offset + 4);
    if Holds(data, offset + 4, PrintWord(size)) {
      ReadsPrintedWord(data, offset + 4, size);
    }
  }

  lemma SplitsChunk(data: Bytes, offset: nat, c: Chunk)
    requires c.WellFormed() && Holds(data, offset, PrintChunk(c))
    ensures offset + |PrintChunk(c)| <= |data|
    ensures Tag(data, offset) == c.tag && Word(data, offset + 4) == |c.payload|
    ensures Holds(data, offset + 8, c.payload)
  {
    hide PrintHead, Word, Tag;
    var head := PrintHead(c.tag, |c.payload|);
    var pad := if |c.payload| % 2 == 1 then [c.pad] else [];
    HoldsBoth(data, offset, head + c.payload, pad);
    HoldsBoth(data, offset, head, c.payload);
    ReadsHead(data, offset, c.tag, |c.payload|);
  }

  /** The search passes over chunks of other kinds. */
  lemma {:induction false} SkipsChunks(data: Bytes, end: nat, offset: nat, chunks: seq<Chunk>)
    requires end <= |data| && AllWellFormed(chunks) && NoAnim(chunks)
    requires Holds(data, offset, PrintChunks(chunks)) && offset + |PrintChunks(chunks)| <= end
    ensures FindAnim(data, end, offset) == FindAnim(data, end, offset + |PrintChunks(chunks)|)
    decreases |chunks|
  {
    hide Word, Tag, PrintChunk, Holds;
    if chunks != [] {
      var c := chunks[0];
      HoldsBoth(data, offset, PrintChunk(c), PrintChunks(chunks[1..]));
      SplitsChunk(data, offset, c);
      SkipsChunks(data, end, offset + |PrintChunk(c)|, chunks[1..]);
    }
  }

  /** Within the extent stand some chunks, none of them ANIM, and then an ANIM chunk with room for a loop count. */
  ghost predicate HasAnim(data: Bytes, before: seq<Chunk>, payload: Bytes) {
    && IsWebp(data) && Extent(data) <= |data|
    && AllWellFormed(before) && NoAnim(before) && 6 <= |payload| < WORDS
    && Holds(data, 12, PrintChunks(before))
    && Holds(data, 12 + |PrintChunks(before)|, PrintHead(ANIM, |payload|) + payload)
    && 20 + |PrintChunks(before)| + |payload| <= Extent(data)
  }

  lemma FindsAnim(data: Bytes, before: seq<Chunk>, payload: Bytes)
    requires HasAnim(data, before, payload)
    ensures LocateAnim(data) == Ok(20 + |PrintChunks(before)|)
  {
    hide Word, Tag, PrintHead, PrintChunks, Extent, IsWebp, Holds;
    var offset := 12 + |PrintChunks(before)|;
    HoldsBoth(data, offset, PrintHead(ANIM, |payload|), payload);
    SkipsChunks(data, Extent(data), 12, before);
    ReadsHead(data, offset, ANIM, |payload|);
  }

  /** The chunk that the search passes over, as it would be printed. */
  lemma ReadChunk(data: Bytes, offset: nat) returns (c: Chunk)
    requires offset + 8 <= |data|
    requires var size := Word(data, offset + 4); offset + 8 + size + size % 2 <= |data|
    ensures c.WellFormed() && Holds(data, offset, PrintChunk(c))
    ensures c.tag == Tag(data, offset) && |c.payload| == Word(data, offset + 4)
  {
    hide Word, PrintHead;
    var size := Word(data, offset + 4);
    var odd := offset + 8 + size;
    c := Chunk(Tag(data, offset), data[offset + 8..odd], if size % 2 == 1 then data[odd] else 0);
    var head := PrintHead(c.tag, size);
    var pad := if size % 2 == 1 then [c.pad] else [];
    ReadsHead(data, offset, c.tag, size);
    HoldsBoth(data, offset, head, c.payload);
    HoldsBoth(data, offset, head + c.payload, pad);
  }

  lemma {:induction false} ReadBefore(data: Bytes, end: nat, offset: nat) returns (before: seq<Chunk>)
    requires end <= |data| && FindAnim(data, end, offset).Ok?
    ensures AllWellFormed(before) && NoAnim(before) && Holds(data, offset, PrintChunks(before))
    ensures var there := offset + |PrintChunks(before)|;
            && FindAnim(data, end, offset) == Ok(there + 8) && there + 8 <= |data|
            && Tag(data, there) == ANIM && Word(data, there + 4) >= 6 && there + 8 + Word(data, there + 4) <= end
    decreases end - offset
  {
    hide Word, Tag, PrintChunk;
    if Tag(data, offset) == ANIM {
      before := [];
    } else {
      var size := Word(data, offset + 4);
      var next := offset + 8 + size + size % 2;
      var others := ReadBefore(data, end, next);
      var c := ReadChunk(data, offset);
      before := [c] + others;
      assert before[1..] == others;
      HoldsBoth(data, offset, PrintChunk(c), PrintChunks(others));
    }
  }

  lemma ReadAnim(data: Bytes) returns (before: seq<Chunk>, payload: Bytes)
    requires LocateAnim(data).Ok?
    ensures HasAnim(data, before, payload) && LocateAnim(data) == Ok(20 + |PrintChunks(before)|)
  {
    hide Word, Tag, PrintHead, PrintChunks, IsWebp, FindAnim;
    before := ReadBefore(data, Extent(data), 12);
    var there := 12 + |PrintChunks(before)|;
    var size := Word(data, there + 4);
    payload := data[there + 8..there + 8 + size];
    ReadsHead(data, there, ANIM, size);
    HoldsBoth(data, there, PrintHead(ANIM, size), payload);
  }

  /** The rewriter accepts a buffer exactly if its extent fits and holds an ANIM chunk behind chunks of other kinds. */
  lemma AcceptsExactly(data: Bytes, payloadStart: nat)
    ensures LocateAnim(data) == Ok(payloadStart) <==>
            exists before: seq<Chunk>, payload: Bytes ::
              HasAnim(data, before, payload) && payloadStart == 20 + |PrintChunks(before)|
  {
    hide LocateAnim, PrintChunks;
    if LocateAnim(data) == Ok(payloadStart) {
      var before, payload := ReadAnim(data);
    }
    forall before: seq<Chunk>, payload: Bytes |
      HasAnim(data, before, payload) && payloadStart == 20 + |PrintChunks(before)|
      ensures LocateAnim(data) == Ok(payloadStart)
    {
      FindsAnim(data, before, payload);
    }
  }

  /** What a printed container reads as: its header, its extent, and its chunks from offset 12 to the extent's end. */
  lemma ReadsPrinted(w: Webp)
    requires w.WellFormed()
    ensures IsWebp(Print(w)) && Extent(Print(w)) == 12 + |PrintChunks(w.chunks)| <= |Print(w)|
    ensures Holds(Print(w), 12, PrintChunks(w.chunks))
  {
  }

  lemma Associates(s: Bytes, t: Bytes, u: Bytes)
    ensures s + (t + u) == s + t + u
  {
  }

  lemma {:induction false} PrintsConcatenation(chunks: seq<Chunk>, more: seq<Chunk>)
    requires AllWellFormed(chunks) && AllWellFormed(more)
    ensures AllWellFormed(chunks + more) && PrintChunks(chunks + more) == PrintChunks(chunks) + PrintChunks(more)
  {
    hide PrintChunk;
    if chunks == [] {
      assert chunks + more == more;
    } else {
      assert (chunks + more)[1..] == chunks[1..] + more;
      PrintsConcatenation(chunks[1..], more);
      Associates(PrintChunk(chunks[0]), PrintChunks(chunks[1..]), PrintChunks(more));
    }
  }

  lemma PrintsFirst(c: Chunk, after: seq<Chunk>)
    requires c.WellFormed() && AllWellFormed(after)
    ensures AllWellFormed([c] + after) && PrintChunks([c] + after) == PrintChunk(c) + PrintChunks(after)
  {
  }

  lemma SplitsAround<T>(s: seq<T>, i: nat)
    requires i < |s|
    ensures s == s[..i] + ([s[i]] + s[i + 1..])
  {
  }

  lemma PrintsAround(chunks: seq<Chunk>, i: nat)
    requires AllWellFormed(chunks) && i < |chunks|
    ensures PrintChunks(chunks) ==
            PrintChunks(chunks[..i]) + PrintChunk(chunks[i]) + PrintChunks(chunks[i + 1..])
  {
    hide PrintChunk, PrintChunks;
    var before, c, after := chunks[..i], chunks[i], chunks[i + 1..];
    SplitsAround(chunks, i);
    PrintsFirst(c, after);
    PrintsConcatenation(before, [c] + after);
    Associates(PrintChunks(before), PrintChunk(c), PrintChunks(after));
  }

  ghost predicate FirstAnim(chunks: seq<Chunk>, i: nat) {
    i < |chunks| && chunks[i].tag == ANIM && NoAnim(chunks[..i])
  }

  lemma LocatesPrintedAnim(w: Webp, i: nat)
    requires w.WellFormed() && FirstAnim(w.chunks, i)
    ensures LocateAnim(Print(w)) ==
            if |w.chunks[i].payload| < 6 then Err(InvalidAnim) else Ok(20 + |PrintChunks(w.chunks[..i])|)
  {
    hide Word, Tag, PrintChunk, PrintChunks, Print, IsWebp, Extent, Holds;
    var data, c := Print(w), w.chunks[i];
    var before, after := PrintChunks(w.chunks[..i]), PrintChunks(w.chunks[i + 1..]);
    ReadsPrinted(w);
    PrintsAround(w.chunks, i);
    HoldsBoth(data, 12, before + PrintChunk(c), after);
    HoldsBoth(data, 12, before, PrintChunk(c));
    SkipsChunks(data, Extent(data), 12, w.chunks[..i]);
    SplitsChunk(data, 12 + |before|, c);
  }

  /** A printed container is accepted exactly if its first ANIM chunk has room for a loop count. */
  lemma AcceptsPrinted(w: Webp)
    requires w.WellFormed()
    ensures LocateAnim(Print(w)).Ok? <==> exists i: nat :: FirstAnim(w.chunks, i) && |w.chunks[i].payload| >= 6
    ensures NoAnim(w.chunks) ==> LocateAnim(Print(w)) == Err(MissingAnim)
  {
    hide Word, Tag, PrintChunks, Print, IsWebp, Extent, Holds;
    if NoAnim(w.chunks) {
      ReadsPrinted(w);
      SkipsChunks(Print(w), Extent(Print(w)), 12, w.chunks);
    } else {
      var i := IndexOfAnim(w.chunks);
      LocatesPrintedAnim(w, i);
    }
    forall i: nat | FirstAnim(w.chunks, i) && |w.chunks[i].payload| >= 6 ensures LocateAnim(Print(w)).Ok? {
      LocatesPrintedAnim(w, i);
    }
  }

  lemma {:induction false} IndexOfAnim(chunks: seq<Chunk>) returns (i: nat)
    requires !NoAnim(chunks)
    ensures FirstAnim(chunks, i)
  {
    if chunks[0].tag == ANIM {
      i := 0;
    } else {
      i := IndexOfAnim(chunks[1..]);
      assert chunks[1..][..i] == chunks[1..i + 1];
      i := i + 1;
    }
  }

  /** The chunk with a loop count of zero, which means forever. */
  function LoopedForever(c: Chunk): Chunk
    requires |c.payload| >= 6
  {
    c.(payload := c.payload[4 := 0][5 := 0])
  }

  lemma PrintsLooped(c: Chunk)
    requires c.WellFormed() && |c.payload| >= 6
    ensures LoopedForever(c).WellFormed() && PrintChunk(LoopedForever(c)) == ZeroLoop(PrintChunk(c), 8)
  {
  }

  lemma ZeroLoopInside(before: Bytes, s: Bytes, after: Bytes, payload: nat)
    requires payload + 6 <= |s|
    ensures ZeroLoop(before + s + after, |before| + payload) == before + ZeroLoop(s, payload) + after
  {
  }

  /** Rewriting a printed container prints the same chunks, but for the two loop bytes of the first ANIM chunk. */
  lemma RewritesPrinted(w: Webp, i: nat)
    requires w.WellFormed() && FirstAnim(w.chunks, i) && |w.chunks[i].payload| >= 6
    ensures var looped := w.(chunks := w.chunks[i := LoopedForever(w.chunks[i])]);
            looped.WellFormed() && Rewritten(Print(w)) == Print(looped)
  {
    hide PrintHeader, PrintChunk, PrintChunks, ZeroLoop, LocateAnim, LoopedForever;
    var c := w.chunks[i];
    var before, after := PrintChunks(w.chunks[..i]), PrintChunks(w.chunks[i + 1..]);
    PrintsAround(w.chunks, i);
    PrintsWithLooped(w.chunks, i);
    LocatesPrintedAnim(w, i);
    var header := PrintHeader(4 + |PrintChunks(w.chunks)|);
    ZeroLoopInside(header + before, PrintChunk(c), after + w.rest, 8);
    assert Print(w) == header + before + PrintChunk(c) + (after + w.rest);
  }

  lemma PrintsWithLooped(chunks: seq<Chunk>, i: nat)
    requires AllWellFormed(chunks) && i < |chunks| && |chunks[i].payload| >= 6
    ensures var looped := chunks[i := LoopedForever(chunks[i])];
            && AllWellFormed(looped) && |PrintChunks(looped)| == |PrintChunks(chunks)|
            && PrintChunks(looped) ==
               PrintChunks(chunks[..i]) + ZeroLoop(PrintChunk(chunks[i]), 8) + PrintChunks(chunks[i + 1..])
  {
    hide PrintChunk, PrintChunks, LoopedForever;
    var looped := chunks[i := LoopedForever(chunks[i])];
    PrintsLooped(chunks[i]);
    PrintsAround(chunks, i);
    PrintsAround(looped, i);
    assert looped[..i] == chunks[..i] && looped[i + 1..] == chunks[i + 1..];
  }

  // ---- The detector on printed containers ----

  predicate ChunkShowsAnimation(c: Chunk) {
    c.tag == ANIM || c.tag == ANMF || (c.tag == VP8X && |c.payload| >= 10 && c.payload[0] / 2 % 2 == 1)
  }

  lemma ShowsPrinted(data: Bytes, offset: nat, c: Chunk)
    requires c.WellFormed() && Holds(data, offset, PrintChunk(c))
    ensures offset + 8 <= |data| && (ShowsAnimation(data, offset) <==> ChunkShowsAnimation(c))
  {
    hide Word, Tag, PrintChunk;
    SplitsChunk(data, offset, c);
    if |c.payload| > 0 {
      HoldsAt(data, offset + 8, c.payload, 0);
    }
  }

  lemma {:induction false} DetectsPrintedChunks(data: Bytes, offset: nat, chunks: seq<Chunk>)
    requires AllWellFormed(chunks) && Holds(data, offset, PrintChunks(chunks))
    requires offset + |PrintChunks(chunks)| == |data|
    ensures DetectFrom(data, offset) <==> exists i :: 0 <= i < |chunks| && ChunkShowsAnimation(chunks[i])
    decreases |chunks|
  {
    hide Word, Tag, PrintChunk, Holds, ShowsAnimation, ChunkShowsAnimation;
    if chunks != [] {
      var c, others := chunks[0], chunks[1..];
      HoldsBoth(data, offset, PrintChunk(c), PrintChunks(others));
      SplitsChunk(data, offset, c);
      ShowsPrinted(data, offset, c);
      DetectsPrintedChunks(data, offset + |PrintChunk(c)|, others);
      assert forall i :: 0 <= i < |others| ==> others[i] == chunks[i + 1];
      assert forall i :: 1 <= i < |chunks| ==> chunks[i] == others[i - 1];
    }
  }

  /** With nothing behind the extent, the detector reports exactly the containers with an animated chunk. */
  lemma DetectsPrinted(w: Webp)
    requires w.WellFormed() && w.rest == []
    ensures IsAnimated(Print(w)) <==> exists i :: 0 <= i < |w.chunks| && ChunkShowsAnimation(w.chunks[i])
  {
    ReadsPrinted(w);
    DetectsPrintedChunks(Print(w), 12, w.chunks);
    if w.chunks != [] {
      PrintsAround(w.chunks, 0);
    }
  }

  /** Some chunks that show no animation, and then the head of one that does. */
  ghost predicate ShowsAfter(data: Bytes, before: seq<Chunk>) {
    && AllWellFormed(before) && NoneShows(before) && Holds(data, 12, PrintChunks(before))
    && 20 + |PrintChunks(before)| <= |data| && ShowsAnimation(data, 12 + |PrintChunks(before)|)
  }

  ghost predicate NoneShows(chunks: seq<Chunk>) {
    forall i :: 0 <= i < |chunks| ==> !ChunkShowsAnimation(chunks[i])
  }

  /** The detector passes over chunks that show no animation. */
  lemma {:induction false} PassesQuietChunks(data: Bytes, offset: nat, chunks: seq<Chunk>)
    requires AllWellFormed(chunks) && NoneShows(chunks) && Holds(data, offset, PrintChunks(chunks))
    ensures DetectFrom(data, offset) == DetectFrom(data, offset + |PrintChunks(chunks)|)
    decreases |chunks|
  {
    hide Word, Tag, PrintChunk, Holds, ShowsAnimation, ChunkShowsAnimation;
    if chunks != [] {
      var c, others := chunks[0], chunks[1..];
      HoldsBoth(data, offset, PrintChunk(c), PrintChunks(others));
      SplitsChunk(data, offset, c);
      ShowsPrinted(data, offset, c);
      PassesQuietChunks(data, offset + |PrintChunk(c)|, others);
    }
  }

  /** What the detector passed over before it found an animation, as it would be printed. */
  lemma {:induction false} ReadQuietChunks(data: Bytes, offset: nat) returns (before: seq<Chunk>)
    requires DetectFrom(data, offset)
    ensures AllWellFormed(before) && NoneShows(before) && Holds(data, offset, PrintChunks(before))
    ensures offset + |PrintChunks(before)| + 8 <= |data| && ShowsAnimation(data, offset + |PrintChunks(before)|)
    decreases |data| - offset
  {
    hide Word, Tag, PrintChunk, ShowsAnimation, ChunkShowsAnimation;
    if ShowsAnimation(data, offset) {
      before := [];
    } else {
      var size := Word(data, offset + 4);
      var others := ReadQuietChunks(data, offset + 8 + size + size % 2);
      var c := ReadChunk(data, offset);
      ShowsPrinted(data, offset, c);
      before := [c] + others;
      assert before[1..] == others;
      HoldsBoth(data, offset, PrintChunk(c), PrintChunks(others));
    }
  }

  /** The detector reports a buffer exactly if, its extent aside, chunks that show no animation are followed by the head
      of one that does. */
  lemma DetectsExactly(data: Bytes)
    ensures IsAnimated(data) <==> IsWebp(data) && exists before: seq<Chunk> :: ShowsAfter(data, before)
  {
    hide Word, Tag, PrintChunks, Holds, ShowsAnimation;
    if IsAnimated(data) {
      var before := ReadQuietChunks(data, 12);
      assert ShowsAfter(data, before);
    }
    if IsWebp(data) && exists before: seq<Chunk> :: ShowsAfter(data, before) {
      var before: seq<Chunk> :| ShowsAfter(data, before);
      PassesQuietChunks(data, 12, before);
    }
  }

  // ---- Where the two walks part ----

  /** Behind the extent: the detector goes on to the end of the buffer. */
  lemma DetectorReadsPastExtent(w: Webp, size: nat, more: Bytes)
    requires w.WellFormed() && NoneShows(w.chunks) && size < WORDS && w.rest == PrintHead(ANIM, size) + more
    ensures IsAnimated(Print(w)) && LocateAnim(Print(w)) == Err(MissingAnim)
  {
    hide Word, Tag, PrintHead, PrintChunks, Print, IsWebp, Extent, Holds;
    AcceptsPrinted(w);
    ReadsPrinted(w);
    ReadsRest(w);
    HoldsBoth(Print(w), 12 + |PrintChunks(w.chunks)|, PrintHead(ANIM, size), more);
    ReadsHead(Print(w), 12 + |PrintChunks(w.chunks)|, ANIM, size);
    assert ShowsAfter(Print(w), w.chunks);
    DetectsExactly(Print(w));
  }

  lemma ReadsRest(w: Webp)
    requires w.WellFormed()
    ensures Holds(Print(w), 12 + |PrintChunks(w.chunks)|, w.rest)
  {
  }

  /** Within the extent: frames or an extended header show an animation that has no ANIM chunk. */
  lemma AnimationWithoutAnim(w: Webp)
    requires w.WellFormed() && w.rest == [] && NoAnim(w.chunks) && !NoneShows(w.chunks)
    ensures IsAnimated(Print(w)) && LocateAnim(Print(w)) == Err(MissingAnim)
  {
    AcceptsPrinted(w);
    DetectsPrinted(w);
  }

  /** With nothing behind the extent, whatever the detector reports the rewriter accepts exactly if nothing shows an
      animation or the first ANIM chunk has room for a loop count. */
  lemma ConverseExactly(w: Webp)
    requires w.WellFormed() && w.rest == []
    ensures (IsAnimated(Print(w)) ==> LocateAnim(Print(w)).Ok?) <==>
            NoneShows(w.chunks) || exists i: nat :: FirstAnim(w.chunks, i) && |w.chunks[i].payload| >= 6
  {
    AcceptsPrinted(w);
    DetectsPrinted(w);
  }
}
