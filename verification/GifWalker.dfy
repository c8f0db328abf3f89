/** Walking GIF block framing without decoding, against the grammar of the format. */
module GifWalker {
  import opened Common
  import opened ByteStrings

  const MAX_DIMENSION := 16_384
  const MAX_PIXELS := 40_000_000
  const MAX_FRAMES := 256
  const MAX_CUMULATIVE_PIXELS := 100_000_000

  datatype GifError =
    | InvalidHeader | InvalidColorTable | UnexpectedEnd | BadDimensions | TooManyPixels | FrameLimits | BadMarker

  /** width times height, kept out of reach of nonlinear arithmetic. */
  function Product(width: nat, height: nat): nat {
    if height == 0 then 0 else width + Product(width, height - 1)
  }

  lemma {:induction false} AreaIsProduct(width: nat, height: nat)
    ensures Product(width, height) == width * height
  {
    if height > 0 {
      AreaIsProduct(width, height - 1);
    }
  }

  // ---- The grammar: GIF89a sections 15 to 22 and 27 ----

  datatype Colour = Colour(red: Byte, green: Byte, blue: Byte)

  /** How many colours a table may have, by the low three bits of the packed field. */
  const COLOURS: seq<nat> := [2, 4, 8, 16, 32, 64, 128, 256]

  /** How many colours a packed field announces: none unless its highest bit is set. */
  function Colours(packed: Byte): nat {
    if packed < 0x80 then 0 else COLOURS[packed as nat % 8]
  }

  function PrintTable(table: seq<Colour>): Bytes {
    if table == [] then []
    else [table[0].red, table[0].green, table[0].blue] + PrintTable(table[1..])
  }

  /** A run of data sub-blocks up to its terminator. */
  datatype SubBlocks = Terminator | Sub(bytes: Bytes, others: SubBlocks)
  {
    predicate WellFormed() {
      Sub? ==> 0 < |bytes| < 256 && others.WellFormed()
    }
  }

  datatype Block =
    | Extension(kind: Byte, data: SubBlocks)
    | Image(position: Bytes, width: nat, height: nat, packed: Byte, table: seq<Colour>, codeSize: Byte, data: SubBlocks)
  {
    predicate WellFormed() {
      && data.WellFormed()
      && (Image? ==> |position| == 4 && width < 65536 && height < 65536 && |table| == Colours(packed))
    }

    function Count(): nat {
      if Image? then 1 else 0
    }

    /** The pixels of an image; an extension has none. */
    function Area(): nat {
      if Image? then Product(width, height) else 0
    }

    predicate WithinLimits() {
      Image? ==> 0 < width <= 16_384 && 0 < height <= 16_384 && Product(width, height) <= 40_000_000
    }
  }

  datatype Blocks = Trailer | Next(first: Block, others: Blocks)
  {
    predicate WellFormed() {
      Next? ==> first.WellFormed() && others.WellFormed()
    }

    function Frames(): nat {
      if Trailer? then 0 else first.Count() + others.Frames()
    }

    function Pixels(): nat {
      if Trailer? then 0 else first.Area() + others.Pixels()
    }

    predicate EachWithinLimits() {
      Next? ==> first.WithinLimits() && others.EachWithinLimits()
    }

    predicate WithinLimits(frames: nat, pixels: nat) {
      && EachWithinLimits()
      && frames + Frames() <= 256
      && pixels + Pixels() <= 100_000_000
    }
  }

  /** header carries signature and screen descriptor; rest is whatever follows the trailer. */
  datatype Gif = Gif(header: Bytes, table: seq<Colour>, blocks: Blocks, rest: Bytes)
  {
    predicate WellFormed() {
      |header| == 13 && |table| == Colours(header[10]) && blocks.WellFormed()
    }
  }

  function Low(n: nat): Byte {
    (n % 256) as Byte
  }

  function PrintData(data: SubBlocks): Bytes {
    if data.Terminator? then [0] else ([Low(|data.bytes|)] + data.bytes) + PrintData(data.others)
  }

  /** The ten bytes of an image descriptor, for a position of four bytes. */
  function Descriptor(position: Bytes, width: nat, height: nat, packed: Byte): Bytes {
    [0x2c] + position + [Low(width), Low(width / 256), Low(height), Low(height / 256), packed]
  }

  function PrintBlock(b: Block): Bytes {
    match b
    case Extension(kind, data) => [0x21, kind] + PrintData(data)
    case Image(position, width, height, packed, table, codeSize, data) =>
      (Descriptor(position, width, height, packed) + (PrintTable(table) + [codeSize])) + PrintData(data)
  }

  function PrintBlocks(blocks: Blocks): Bytes {
    if blocks.Trailer? then [0x3b] else PrintBlock(blocks.first) + PrintBlocks(blocks.others)
  }

  function Print(g: Gif): Bytes {
    g.header + PrintTable(g.table) + PrintBlocks(g.blocks) + g.rest
  }

  /** The bytes are a GIF of n images, all limits kept. */
  ghost predicate IsGif(data: Bytes, n: nat) {
    exists g: Gif :: g.WellFormed() && Print(g) == data && g.blocks.WithinLimits(0, 0) && g.blocks.Frames() == n
  }

  // ---- The walk ----

  function PowerOfTwo(k: nat): nat {
    if k == 0 then 1 else 2 * PowerOfTwo(k - 1)
  }

  /** The bytes of the colour table that a packed field announces. */
  function TableSize(packed: Byte): nat {
    if packed < 128 then 0 else 3 * PowerOfTwo((packed % 8) as nat + 1)
  }

  /** Three bytes for each colour. */
  lemma TableSizeIsThreeTimesColours(packed: Byte)
    ensures TableSize(packed) == 3 * Colours(packed)
  {
    assert PowerOfTwo(4) == 16;
    assert PowerOfTwo(8) == 16 * PowerOfTwo(4);
  }

  lemma {:induction false} PrintedTableSize(table: seq<Colour>)
    ensures |PrintTable(table)| == 3 * |table|
  {
    if table != [] {
      PrintedTableSize(table[1..]);
    }
  }

  /** The offset after a run of data sub-blocks, or none if the bytes end inside it. */
  function SkipSubBlocks(data: Bytes, offset: nat): (after: Option<nat>)
    ensures after.Some? ==> offset < after.value <= |data|
    decreases |data| - offset
  {
    if offset >= |data| then None
    else
      var size := data[offset] as nat;
      if size == 0 then Some(offset + 1)
      else if size > |data| - (offset + 1) then None
      else SkipSubBlocks(data, offset + 1 + size)
  }

  function ReadWord(data: Bytes, offset: nat): (n: nat)
    requires offset + 2 <= |data|
    ensures n < 65536
  {
    data[offset] as nat + 256 * data[offset + 1] as nat
  }

  /** Framing and limits of the image at `offset`: the offset after it and its pixels. */
  function WalkImage(data: Bytes, offset: nat, frames: nat, pixels: nat): (r: Result<(nat, nat), GifError>)
    requires offset < |data|
    ensures r.Ok? ==> offset < r.value.0 <= |data|
  {
    if offset + 10 > |data| then Err(UnexpectedEnd)
    else
      var width := ReadWord(data, offset + 5);
      var height := ReadWord(data, offset + 7);
      if width == 0 || height == 0 || width > MAX_DIMENSION || height > MAX_DIMENSION then Err(BadDimensions)
      else if Product(width, height) > MAX_PIXELS then Err(TooManyPixels)
      else if frames + 1 > MAX_FRAMES || pixels + Product(width, height) > MAX_CUMULATIVE_PIXELS then Err(FrameLimits)
      else
        var body := offset + 10 + TableSize(data[offset + 9]);
        if body >= |data| then Err(UnexpectedEnd)
        else
          var after := SkipSubBlocks(data, body + 1);
          if after.None? then Err(UnexpectedEnd) else Ok((after.value, Product(width, height)))
  }

  function Walk(data: Bytes, offset: nat, frames: nat, pixels: nat): Result<nat, GifError>
    decreases |data| - offset
  {
    if offset >= |data| then Err(UnexpectedEnd)
    else if data[offset] == 0x3b then Ok(frames)
    else if data[offset] == 0x21 then
      if offset + 2 > |data| then Err(UnexpectedEnd)
      else
        var after := SkipSubBlocks(data, offset + 2);
        if after.None? then Err(UnexpectedEnd) else Walk(data, after.value, frames, pixels)
    else if data[offset] == 0x2c then
      var image := WalkImage(data, offset, frames, pixels);
      if image.Err? then Err(image.error)
      else Walk(data, image.value.0, frames + 1, pixels + image.value.1)
    else Err(BadMarker)
  }

  function Inspect(data: Bytes): Result<nat, GifError> {
    if |data| < 13 then Err(InvalidHeader)
    else
      var start := 13 + TableSize(data[10]);
      if start > |data| then Err(InvalidColorTable) else Walk(data, start, 0, 0)
  }

  /** The closure inside the walker: advances an offset over sub-blocks. */
  method SkipSubBlocksFrom(data: Bytes, start: nat) returns (after: Option<nat>)
    ensures after == SkipSubBlocks(data, start)
  {
    var offset := start;
    while true
      invariant SkipSubBlocks(data, offset) == SkipSubBlocks(data, start)
      decreases |data| - offset
    {
      if offset >= |data| {
        return None;
      }
      var size := data[offset] as nat;
      offset := offset + 1;
      if size == 0 {
        return Some(offset);
      }
      if size > |data| - offset {
        return None;
      }
      offset := offset + size;
    }
  }

  /** Never reads outside the bytes, always advances, and accepts exactly the grammar within the limits. */
  method InspectGIFFrames(data: Bytes) returns (r: Result<nat, GifError>)
    ensures r == Inspect(data)
    ensures forall n: nat :: r == Ok(n) <==> IsGif(data, n)
  {
    hide IsGif, SkipSubBlocks, TableSize, ReadWord;
    forall n: nat ensures Inspect(data) == Ok(n) <==> IsGif(data, n) {
      AcceptsExactlyGifs(data, n);
    }
    if |data| < 13 {
      return Err(InvalidHeader);
    }
    var offset := 13 + TableSize(data[10]);
    if offset > |data| {
      return Err(InvalidColorTable);
    }
    var frames: nat := 0;
    var cumulativePixels: nat := 0;
    while offset < |data|
      invariant Walk(data, offset, frames, cumulativePixels) == Inspect(data)
      decreases |data| - offset
    {
      if data[offset] == 0x3b {
        return Ok(frames);
      } else if data[offset] == 0x21 {
        if offset + 2 > |data| {
          return Err(UnexpectedEnd);
        }
        var after := SkipSubBlocksFrom(data, offset + 2);
        if after.None? {
          return Err(UnexpectedEnd);
        }
        offset := after.value;
      } else if data[offset] == 0x2c {
        if offset + 10 > |data| {
          return Err(UnexpectedEnd);
        }
        var width := ReadWord(data, offset + 5);
        var height := ReadWord(data, offset + 7);
        if width <= 0 || height <= 0 || width > MAX_DIMENSION || height > MAX_DIMENSION {
          return Err(BadDimensions);
        }
        var framePixels: nat := width * height;
        AreaIsProduct(width, height);
        if framePixels > MAX_PIXELS {
          return Err(TooManyPixels);
        }
        if frames + 1 > MAX_FRAMES || cumulativePixels + framePixels > MAX_CUMULATIVE_PIXELS {
          return Err(FrameLimits);
        }
        var body := offset + 10 + TableSize(data[offset + 9]);
        if body >= |data| {
          return Err(UnexpectedEnd);
        }
        var after := SkipSubBlocksFrom(data, body + 1);
        if after.None? {
          return Err(UnexpectedEnd);
        }
        frames, cumulativePixels, offset := frames + 1, cumulativePixels + framePixels, after.value;
      } else {
        return Err(BadMarker);
      }
    }
    r := Err(UnexpectedEnd);
  }

  // ---- The walk accepts what the grammar prints ----

  lemma {:induction false} SkipsPrintedData(data: Bytes, offset: nat, subs: SubBlocks)
    requires subs.WellFormed() && Holds(data, offset, PrintData(subs))
    ensures SkipSubBlocks(data, offset) == Some(offset + |PrintData(subs)|)
    decreases subs
  {
    HoldsAt(data, offset, PrintData(subs), 0);
    if subs.Sub? {
      var first := [Low(|subs.bytes|)] + subs.bytes;
      HoldsBoth(data, offset, first, PrintData(subs.others));
      SkipsPrintedData(data, offset + |first|, subs.others);
    }
  }

  lemma WalksPrintedExtension(data: Bytes, offset: nat, b: Block, frames: nat, pixels: nat)
    requires b.Extension? && b.WellFormed() && Holds(data, offset, PrintBlock(b))
    ensures Walk(data, offset, frames, pixels) == Walk(data, offset + |PrintBlock(b)|, frames, pixels)
  {
    HoldsBoth(data, offset, [0x21, b.kind], PrintData(b.data));
    HoldsAt(data, offset, [0x21, b.kind], 0);
    SkipsPrintedData(data, offset + 2, b.data);
  }

  lemma ReadsPrintedWord(data: Bytes, offset: nat, n: nat)
    requires n < 65536 && offset + 2 <= |data| && data[offset] == Low(n) && data[offset + 1] == Low(n / 256)
    ensures ReadWord(data, offset) == n
  {
  }

  lemma DescriptorReads(data: Bytes, offset: nat, b: Block)
    requires b.Image? && b.WellFormed()
    requires Holds(data, offset, Descriptor(b.position, b.width, b.height, b.packed))
    ensures data[offset] == 0x2c && data[offset + 9] == b.packed
    ensures ReadWord(data, offset + 5) == b.width && ReadWord(data, offset + 7) == b.height
  {
    var head := Descriptor(b.position, b.width, b.height, b.packed);
    HoldsAt(data, offset, head, 0);
    HoldsAt(data, offset, head, 5);
    HoldsAt(data, offset, head, 6);
    HoldsAt(data, offset, head, 7);
    HoldsAt(data, offset, head, 8);
    HoldsAt(data, offset, head, 9);
    ReadsPrintedWord(data, offset + 5, b.width);
    ReadsPrintedWord(data, offset + 7, b.height);
  }

  /** An image's bytes are its descriptor, its colour table with the code size, and its data. */
  lemma SplitsImage(data: Bytes, offset: nat, b: Block)
    requires b.Image? && b.WellFormed()
    ensures |PrintTable(b.table)| == TableSize(b.packed)
    ensures |PrintBlock(b)| == 11 + |PrintTable(b.table)| + |PrintData(b.data)|
    ensures Holds(data, offset, PrintBlock(b)) <==>
            && Holds(data, offset, Descriptor(b.position, b.width, b.height, b.packed))
            && Holds(data, offset + 10, PrintTable(b.table) + [b.codeSize])
            && Holds(data, offset + 11 + |PrintTable(b.table)|, PrintData(b.data))
  {
    hide Holds, PrintData, Low, PrintTable, Colours, TableSize;
    PrintedTableSize(b.table);
    TableSizeIsThreeTimesColours(b.packed);
    var head := Descriptor(b.position, b.width, b.height, b.packed);
    var table := PrintTable(b.table) + [b.codeSize];
    HoldsBoth(data, offset, head + table, PrintData(b.data));
    HoldsBoth(data, offset, head, table);
  }

  lemma WalksPrintedImage(data: Bytes, offset: nat, b: Block, frames: nat, pixels: nat)
    requires b.Image? && b.WellFormed() && b.WithinLimits() && Holds(data, offset, PrintBlock(b))
    requires frames + 1 <= MAX_FRAMES && pixels + b.Area() <= MAX_CUMULATIVE_PIXELS
    ensures offset < |data| && data[offset] == 0x2c
    ensures WalkImage(data, offset, frames, pixels) == Ok((offset + |PrintBlock(b)|, b.Area()))
  {
    hide PrintBlock, PrintTable, Colours, PrintData, SkipSubBlocks, Product, TableSize, Descriptor, ReadWord;
    SplitsImage(data, offset, b);
    DescriptorIsInside(data, offset, b);
    DescriptorReads(data, offset, b);
    SkipsPrintedData(data, offset + 11 + |PrintTable(b.table)|, b.data);
  }

  lemma DescriptorIsInside(data: Bytes, offset: nat, b: Block)
    requires b.Image? && b.WellFormed()
    requires Holds(data, offset, Descriptor(b.position, b.width, b.height, b.packed))
    ensures offset + 10 <= |data|
  {
  }

  lemma WalksPrintedBlock(data: Bytes, offset: nat, b: Block, frames: nat, pixels: nat)
    requires b.WellFormed() && b.WithinLimits() && Holds(data, offset, PrintBlock(b))
    requires frames + b.Count() <= MAX_FRAMES && pixels + b.Area() <= MAX_CUMULATIVE_PIXELS
    ensures Walk(data, offset, frames, pixels) ==
            Walk(data, offset + |PrintBlock(b)|, frames + b.Count(), pixels + b.Area())
  {
    if b.Extension? {
      WalksPrintedExtension(data, offset, b, frames, pixels);
    } else {
      WalksPrintedImage(data, offset, b, frames, pixels);
    }
  }

  lemma WalksTrailer(data: Bytes, offset: nat, frames: nat, pixels: nat)
    requires Holds(data, offset, PrintBlocks(Trailer))
    ensures Walk(data, offset, frames, pixels) == Ok(frames + Trailer.Frames())
  {
  }

  /** What holds of a non-empty list of blocks, its limits and its bytes, said of the first block and the others. */
  lemma SplitsBlocks(data: Bytes, offset: nat, b: Block, others: Blocks, frames: nat, pixels: nat)
    ensures Next(b, others).WellFormed() <==> b.WellFormed() && others.WellFormed()
    ensures Holds(data, offset, PrintBlocks(Next(b, others))) <==>
            Holds(data, offset, PrintBlock(b)) && Holds(data, offset + |PrintBlock(b)|, PrintBlocks(others))
    ensures Next(b, others).WithinLimits(frames, pixels) <==>
            b.WithinLimits() && others.WithinLimits(frames + b.Count(), pixels + b.Area())
    ensures others.WithinLimits(frames + b.Count(), pixels + b.Area()) ==>
            frames + b.Count() <= MAX_FRAMES && pixels + b.Area() <= MAX_CUMULATIVE_PIXELS
    ensures Next(b, others).Frames() == b.Count() + others.Frames()
  {
    HoldsBoth(data, offset, PrintBlock(b), PrintBlocks(others));
  }

  lemma {:induction false} WalksPrintedBlocks(data: Bytes, offset: nat, blocks: Blocks, frames: nat, pixels: nat)
    requires blocks.WellFormed() && blocks.WithinLimits(frames, pixels)
    requires Holds(data, offset, PrintBlocks(blocks))
    ensures Walk(data, offset, frames, pixels) == Ok(frames + blocks.Frames())
    decreases blocks
  {
    hide *;
    match blocks
    case Trailer => WalksTrailer(data, offset, frames, pixels);
    case Next(b, others) =>
      SplitsBlocks(data, offset, b, others, frames, pixels);
      WalksPrintedBlock(data, offset, b, frames, pixels);
      WalksPrintedBlocks(data, offset + |PrintBlock(b)|, others, frames + b.Count(), pixels + b.Area());
  }

  // ---- What the walk accepts can be printed ----

  lemma HoldsSlice(data: Bytes, offset: nat, next: nat)
    requires offset < next <= |data|
    ensures Holds(data, offset, [data[offset]] + data[offset + 1..next])
  {
  }

  lemma PrintsSub(size: Byte, subs: SubBlocks)
    requires subs.Sub? && |subs.bytes| == size as nat
    ensures PrintData(subs) == ([size] + subs.bytes) + PrintData(subs.others)
  {
  }

  lemma {:induction false} ParseData(data: Bytes, offset: nat) returns (subs: SubBlocks)
    requires SkipSubBlocks(data, offset).Some?
    ensures subs.WellFormed() && Holds(data, offset, PrintData(subs))
    ensures SkipSubBlocks(data, offset) == Some(offset + |PrintData(subs)|)
    decreases |data| - offset
  {
    var size := data[offset] as nat;
    if size == 0 {
      subs := Terminator;
    } else {
      hide PrintData, Holds;
      var next := offset + 1 + size;
      var others := ParseData(data, next);
      subs := Sub(data[offset + 1..next], others);
      HoldsSlice(data, offset, next);
      PrintsSub(data[offset], subs);
      HoldsBoth(data, offset, [data[offset]] + subs.bytes, PrintData(others));
    }
  }

  lemma ParseExtension(data: Bytes, offset: nat) returns (b: Block)
    requires offset + 2 <= |data| && data[offset] == 0x21 && SkipSubBlocks(data, offset + 2).Some?
    ensures b.Extension? && b.WellFormed() && Holds(data, offset, PrintBlock(b))
    ensures SkipSubBlocks(data, offset + 2) == Some(offset + |PrintBlock(b)|)
  {
    var subs := ParseData(data, offset + 2);
    b := Extension(data[offset + 1], subs);
    HoldsBoth(data, offset, [0x21, b.kind], PrintData(subs));
    assert data[offset..offset + 2] == [0x21, b.kind];
  }

  lemma ParseDescriptor(data: Bytes, offset: nat) returns (position: Bytes)
    requires offset + 10 <= |data| && data[offset] == 0x2c
    ensures |position| == 4
    ensures var width, height := ReadWord(data, offset + 5), ReadWord(data, offset + 7);
            Holds(data, offset, Descriptor(position, width, height, data[offset + 9]))
  {
    position := data[offset + 1..offset + 5];
    var width := ReadWord(data, offset + 5);
    var height := ReadWord(data, offset + 7);
    assert Low(width) == data[offset + 5] && Low(width / 256) == data[offset + 6];
    assert Low(height) == data[offset + 7] && Low(height / 256) == data[offset + 8];
  }

  lemma {:induction false} ParseColours(data: Bytes, offset: nat, n: nat) returns (table: seq<Colour>)
    requires offset + 3 * n <= |data|
    ensures |table| == n && PrintTable(table) == data[offset..offset + 3 * n]
    decreases n
  {
    table := [];
    if n > 0 {
      var others := ParseColours(data, offset + 3, n - 1);
      table := [Colour(data[offset], data[offset + 1], data[offset + 2])] + others;
      assert table[1..] == others;
    }
  }

  lemma ParseTable(data: Bytes, offset: nat, packed: Byte) returns (table: seq<Colour>)
    requires offset + TableSize(packed) <= |data|
    ensures |table| == Colours(packed) && PrintTable(table) == data[offset..offset + TableSize(packed)]
  {
    hide TableSize, Colours, PrintTable;
    TableSizeIsThreeTimesColours(packed);
    table := ParseColours(data, offset, Colours(packed));
  }

  lemma HoldsTable(data: Bytes, offset: nat, size: nat)
    requires offset + size < |data|
    ensures Holds(data, offset, data[offset..offset + size] + [data[offset + size]])
  {
  }

  /** What an accepted image says of itself. */
  lemma AcceptedImage(data: Bytes, offset: nat, frames: nat, pixels: nat)
    requires offset < |data| && WalkImage(data, offset, frames, pixels).Ok?
    ensures offset + 10 + TableSize(data[offset + 9]) < |data|
    ensures var width, height := ReadWord(data, offset + 5), ReadWord(data, offset + 7);
            var after := SkipSubBlocks(data, offset + 11 + TableSize(data[offset + 9]));
            && 0 < width <= MAX_DIMENSION && 0 < height <= MAX_DIMENSION && Product(width, height) <= MAX_PIXELS
            && frames + 1 <= MAX_FRAMES && pixels + Product(width, height) <= MAX_CUMULATIVE_PIXELS
            && after.Some? && WalkImage(data, offset, frames, pixels) == Ok((after.value, Product(width, height)))
  {
  }

  lemma ParseImage(data: Bytes, offset: nat, frames: nat, pixels: nat) returns (b: Block)
    requires offset < |data| && data[offset] == 0x2c && WalkImage(data, offset, frames, pixels).Ok?
    ensures b.Image? && b.WellFormed() && b.WithinLimits() && Holds(data, offset, PrintBlock(b))
    ensures WalkImage(data, offset, frames, pixels) == Ok((offset + |PrintBlock(b)|, b.Area()))
    ensures frames + 1 <= MAX_FRAMES && pixels + b.Area() <= MAX_CUMULATIVE_PIXELS
  {
    hide WalkImage, Holds, PrintBlock, PrintData, PrintTable, SkipSubBlocks, Descriptor, Product, ReadWord;
    hide TableSize, Colours;
    AcceptedImage(data, offset, frames, pixels);
    var position := ParseDescriptor(data, offset);
    var packed := data[offset + 9];
    var size := TableSize(packed);
    var table := ParseTable(data, offset + 10, packed);
    HoldsTable(data, offset + 10, size);
    var subs := ParseData(data, offset + 11 + size);
    b := Image(position, ReadWord(data, offset + 5), ReadWord(data, offset + 7), packed,
               table, data[offset + 10 + size], subs);
    SplitsImage(data, offset, b);
  }

  /** The first block of what the walk accepts, and where the walk goes on. */
  lemma ParseBlock(data: Bytes, offset: nat, frames: nat, pixels: nat) returns (b: Block)
    requires Walk(data, offset, frames, pixels).Ok? && data[offset] != 0x3b
    ensures b.WellFormed() && b.WithinLimits() && Holds(data, offset, PrintBlock(b)) && |PrintBlock(b)| > 0
    ensures frames <= MAX_FRAMES ==> frames + b.Count() <= MAX_FRAMES
    ensures pixels <= MAX_CUMULATIVE_PIXELS ==> pixels + b.Area() <= MAX_CUMULATIVE_PIXELS
    ensures Walk(data, offset, frames, pixels) ==
            Walk(data, offset + |PrintBlock(b)|, frames + b.Count(), pixels + b.Area())
  {
    hide Holds, PrintBlock, SkipSubBlocks, WalkImage;
    if data[offset] == 0x21 {
      b := ParseExtension(data, offset);
    } else {
      b := ParseImage(data, offset, frames, pixels);
    }
  }

  lemma ParseTrailer(data: Bytes, offset: nat, frames: nat, pixels: nat)
    requires Walk(data, offset, frames, pixels).Ok? && data[offset] == 0x3b
    requires frames <= MAX_FRAMES && pixels <= MAX_CUMULATIVE_PIXELS
    ensures Trailer.WellFormed() && Trailer.WithinLimits(frames, pixels)
    ensures Holds(data, offset, PrintBlocks(Trailer))
    ensures Walk(data, offset, frames, pixels).value == frames + Trailer.Frames()
  {
  }

  lemma AcceptedIsInside(data: Bytes, offset: nat, frames: nat, pixels: nat)
    requires Walk(data, offset, frames, pixels).Ok?
    ensures offset < |data|
  {
  }

  lemma {:induction false} ParseBlocks(data: Bytes, offset: nat, frames: nat, pixels: nat) returns (blocks: Blocks)
    requires Walk(data, offset, frames, pixels).Ok?
    requires frames <= MAX_FRAMES && pixels <= MAX_CUMULATIVE_PIXELS
    ensures blocks.WellFormed() && blocks.WithinLimits(frames, pixels)
    ensures Holds(data, offset, PrintBlocks(blocks))
    ensures Walk(data, offset, frames, pixels).value == frames + blocks.Frames()
    decreases |data| - offset
  {
    hide *;
    AcceptedIsInside(data, offset, frames, pixels);
    if data[offset] == 0x3b {
      ParseTrailer(data, offset, frames, pixels);
      blocks := Trailer;
    } else {
      var b := ParseBlock(data, offset, frames, pixels);
      var others := ParseBlocks(data, offset + |PrintBlock(b)|, frames + b.Count(), pixels + b.Area());
      blocks := Next(b, others);
      SplitsBlocks(data, offset, b, others, frames, pixels);
    }
  }

  lemma PrintedIsAccepted(data: Bytes, g: Gif)
    requires g.WellFormed() && Print(g) == data && g.blocks.WithinLimits(0, 0)
    ensures Inspect(data) == Ok(g.blocks.Frames())
  {
    var head := g.header + PrintTable(g.table);
    PrintedTableSize(g.table);
    TableSizeIsThreeTimesColours(g.header[10]);
    var blocks := PrintBlocks(g.blocks);
    assert Holds(data, |head|, blocks) by {
      hide PrintBlocks;
      assert data[|head|..|head| + |blocks|] == blocks;
    }
    WalksPrintedBlocks(data, |head|, g.blocks, 0, 0);
    InspectsAfterHead(data, g.header, |head|);
  }

  lemma InspectsAfterHead(data: Bytes, header: Bytes, start: nat)
    requires |header| == 13 && header <= data && start == 13 + TableSize(header[10]) && start <= |data|
    ensures Inspect(data) == Walk(data, start, 0, 0)
  {
  }

  lemma AcceptedIsPrinted(data: Bytes)
    requires Inspect(data).Ok?
    ensures IsGif(data, Inspect(data).value)
  {
    hide Walk, PrintBlocks, TableSize, Colours, PrintTable;
    var start := 13 + TableSize(data[10]);
    var table := ParseTable(data, 13, data[10]);
    var blocks := ParseBlocks(data, start, 0, 0);
    var end := start + |PrintBlocks(blocks)|;
    var g := Gif(data[..13], table, blocks, data[end..]);
    assert data == data[..13] + data[13..start] + data[start..end] + data[end..];
    assert g.WellFormed() && Print(g) == data;
  }

  /** The walker returns n exactly for the GIFs of n images within all limits. */
  lemma AcceptsExactlyGifs(data: Bytes, n: nat)
    ensures Inspect(data) == Ok(n) <==> IsGif(data, n)
  {
    if Inspect(data) == Ok(n) {
      AcceptedIsPrinted(data);
    }
    if IsGif(data, n) {
      var g: Gif :| g.WellFormed() && Print(g) == data && g.blocks.WithinLimits(0, 0) && g.blocks.Frames() == n;
      PrintedIsAccepted(data, g);
    }
  }
}
