/** The GIF inspector against a generative grammar of the format
    (GIF89a, sections 15, 20, 23 and 27). */
module Gif {
  import opened Basics
  import opened ImageHeaders

  // ----- the grammar -----

  datatype Block =
    | GraphicControl(flags: byte, delay: nat, transparent: byte)
    | Extension(kind: byte, data: seq<seq<byte>>)
    | Image(position: seq<byte>, width: nat, height: nat, packed: byte, table: seq<byte>,
            codeSize: byte, data: seq<seq<byte>>)

  datatype Document = Document(
    signature: seq<byte>, width: nat, height: nat, packed: byte, background: byte, aspect: byte,
    table: seq<byte>, blocks: seq<Block>)

  /** Bytes of the colour table announced by a packed field: 3 * 2^(n + 1), or none. */
  function TableSize(packed: byte): (n: nat) {
    if packed < 0x80 then 0 else 3 * [2, 4, 8, 16, 32, 64, 128, 256][packed % 8]
  }

  function PowerOfTwo(n: nat): (p: nat) {
    if n == 0 then 1 else 2 * PowerOfTwo(n - 1)
  }

  /** The high bit announces a table, and the low three bits n that it has 2^(n + 1)
      entries of three bytes. */
  lemma TableSizeIsExact(packed: byte)
    ensures packed < 0x80 ==> TableSize(packed) == 0
    ensures packed >= 0x80 ==> TableSize(packed) == 3 * PowerOfTwo(packed as int % 8 + 1)
  {
    var n := packed as int % 8;
    PowersOfTwo();
    assert packed % 8 == n as byte;
  }

  lemma PowersOfTwo()
    ensures PowerOfTwo(1) == 2 && PowerOfTwo(2) == 4 && PowerOfTwo(3) == 8 && PowerOfTwo(4) == 16
    ensures PowerOfTwo(5) == 32 && PowerOfTwo(6) == 64 && PowerOfTwo(7) == 128 && PowerOfTwo(8) == 256
  {
    assert PowerOfTwo(4) == 16;
  }

  predicate DataWellFormed(data: seq<seq<byte>>) {
    forall i :: 0 <= i < |data| ==> 1 <= |data[i]| <= 255
  }

  predicate BlockWellFormed(b: Block) {
    match b
    case GraphicControl(_, delay, _) => delay < 0x1_0000
    case Extension(kind, data) => kind != 0xf9 && DataWellFormed(data)
    case Image(position, width, height, packed, table, _, data) =>
      && |position| == 4 && 0 < width < 0x1_0000 && 0 < height < 0x1_0000
      && |table| == TableSize(packed) && DataWellFormed(data)
  }

  predicate BlocksWellFormed(blocks: seq<Block>) {
    forall i :: 0 <= i < |blocks| ==> BlockWellFormed(blocks[i])
  }

  predicate WellFormed(doc: Document) {
    && |doc.signature| == 6 && 0 < doc.width < 0x1_0000 && 0 < doc.height < 0x1_0000
    && |doc.table| == TableSize(doc.packed) && BlocksWellFormed(doc.blocks)
  }

  function EncodeData(data: seq<seq<byte>>): (s: seq<byte>)
    requires DataWellFormed(data)
    ensures |s| >= 1
  {
    if data == [] then [0] else [|data[0]| as byte] + (data[0] + EncodeData(data[1..]))
  }

  function EncodeDescriptor(position: seq<byte>, width: nat, height: nat, packed: byte): (s: seq<byte>)
    requires |position| == 4 && width < 0x1_0000 && height < 0x1_0000
    ensures |s| == 10
  {
    [0x2c] + (position + (PutLE16(width) + (PutLE16(height) + [packed])))
  }

  function EncodeScreen(signature: seq<byte>, width: nat, height: nat, packed: byte, background: byte,
          aspect: byte): (s: seq<byte>)
    requires |signature| == 6 && width < 0x1_0000 && height < 0x1_0000
    ensures |s| == 13
  {
    signature + (PutLE16(width) + (PutLE16(height) + ([packed] + ([background] + [aspect]))))
  }

  function EncodeBlock(b: Block): (s: seq<byte>)
    requires BlockWellFormed(b)
    ensures |s| >= 1 && s[0] != 0x3b
  {
    match b
    case GraphicControl(flags, delay, transparent) =>
      [0x21] + ([0xf9] + ([4] + ([flags] + (PutLE16(delay) + ([transparent] + [0])))))
    case Extension(kind, data) => [0x21] + ([kind] + EncodeData(data))
    case Image(position, width, height, packed, table, codeSize, data) =>
      EncodeDescriptor(position, width, height, packed) + (table + ([codeSize] + EncodeData(data)))
  }

  /** Every block in turn, then the trailer. */
  function EncodeBlocks(blocks: seq<Block>): (s: seq<byte>)
    requires BlocksWellFormed(blocks)
  {
    if blocks == [] then [0x3b] else EncodeBlock(blocks[0]) + EncodeBlocks(blocks[1..])
  }

  function Encode(doc: Document): (s: seq<byte>)
    requires WellFormed(doc)
  {
    EncodeScreen(doc.signature, doc.width, doc.height, doc.packed, doc.background, doc.aspect)
      + (doc.table + EncodeBlocks(doc.blocks))
  }

  // ----- what a document means -----

  /** Ten times the last graphic-control delay still pending after these blocks: an
      image consumes it, other extensions leave it. */
  function PendingDelay(blocks: seq<Block>): (d: nat) {
    if blocks == [] then 0
    else
      match blocks[|blocks| - 1]
      case GraphicControl(_, delay, _) => 10 * delay
      case Image(_, _, _, _, _, _, _) => 0
      case Extension(_, _) => PendingDelay(blocks[..|blocks| - 1])
  }

  /** One frame per image descriptor, in order. */
  function Frames(blocks: seq<Block>): (f: seq<Frame>) {
    if blocks == [] then []
    else
      var earlier := blocks[..|blocks| - 1];
      var b := blocks[|blocks| - 1];
      if b.Image? then Frames(earlier) + [Frame(b.width, b.height, PendingDelay(earlier))] else Frames(earlier)
  }

  function WidestFrame(canvas: nat, frames: seq<Frame>): nat {
    if frames == [] then canvas else Max(WidestFrame(canvas, frames[..|frames| - 1]), frames[|frames| - 1].width)
  }

  function TallestFrame(canvas: nat, frames: seq<Frame>): nat {
    if frames == [] then canvas else Max(TallestFrame(canvas, frames[..|frames| - 1]), frames[|frames| - 1].height)
  }

  /** The reported frame size is the largest among the canvas and the frames. */
  lemma {:induction false} ReportedSizesAreLargest(width: nat, height: nat, frames: seq<Frame>)
    ensures width <= WidestFrame(width, frames) && height <= TallestFrame(height, frames)
    ensures forall f :: f in frames ==>
      f.width <= WidestFrame(width, frames) && f.height <= TallestFrame(height, frames)
    ensures WidestFrame(width, frames) == width || exists f :: f in frames && f.width == WidestFrame(width, frames)
    ensures TallestFrame(height, frames) == height
      || exists f :: f in frames && f.height == TallestFrame(height, frames)
  {
    if frames != [] {
      var earlier, last := frames[..|frames| - 1], frames[|frames| - 1];
      ReportedSizesAreLargest(width, height, earlier);
      assert forall f :: f in frames <==> f in earlier || f == last;
    }
  }

  /** The header of a document with at least one image. */
  function Summary(width: nat, height: nat, blocks: seq<Block>): (r: Option<ImageHeader>)
    ensures r.Some? ==> Summarises(r.value, Frames(blocks))
  {
    var frames := Frames(blocks);
    if frames == [] then None
    else
      Some(ImageHeader(GIF, width, height, WidestFrame(width, frames), TallestFrame(height, frames), |frames|,
                       Min(DelaySum(frames), MAX_INT64), Min(AreaSum(frames), MAX_UINT64), None))
  }

  // ----- recursive descent -----

  function DataAt(input: seq<byte>, offset: nat): (r: Option<(seq<seq<byte>>, nat)>)
    ensures r.Some? ==> offset < r.value.1 <= |input|
    decreases |input| - offset
  {
    if offset >= |input| then None
    else
      var size := input[offset] as int;
      if size == 0 then Some(([], offset + 1))
      else if size > |input| - (offset + 1) then None
      else
        match DataAt(input, offset + 1 + size)
        case None => None
        case Some((rest, next)) => Some(([input[offset + 1..offset + 1 + size]] + rest, next))
  }

  function ControlAt(input: seq<byte>, offset: nat): (r: Option<(Block, nat)>)
    ensures r.Some? ==> offset < r.value.1 <= |input|
  {
    if offset + 6 > |input| || input[offset] != 4 || input[offset + 5] != 0 then None
    else Some((GraphicControl(input[offset + 1], LE16(input[offset + 2..offset + 4]), input[offset + 4]), offset + 6))
  }

  function ImageAt(input: seq<byte>, offset: nat): (r: Option<(Block, nat)>)
    ensures r.Some? ==> offset < r.value.1 <= |input|
  {
    if offset + 9 > |input| then None
    else
      var width, height := LE16(input[offset + 4..offset + 6]), LE16(input[offset + 6..offset + 8]);
      var packed := input[offset + 8];
      var code := offset + 9 + TableSize(packed);
      if width == 0 || height == 0 || code >= |input| then None
      else
        match DataAt(input, code + 1)
        case None => None
        case Some((data, next)) =>
          var table := input[offset + 9..code];
          var image := Image(input[offset..offset + 4], width, height, packed, table, input[code], data);
          Some((image, next))
  }

  function BlockAt(input: seq<byte>, offset: nat): (r: Option<(Block, nat)>)
    requires offset < |input|
    ensures r.Some? ==> offset < r.value.1 <= |input|
  {
    if input[offset] == 0x21 then
      if offset + 1 >= |input| then None
      else if input[offset + 1] == 0xf9 then ControlAt(input, offset + 2)
      else
        match DataAt(input, offset + 2)
        case None => None
        case Some((data, next)) => Some((Extension(input[offset + 1], data), next))
    else if input[offset] == 0x2c then ImageAt(input, offset + 1)
    else None
  }

  function BlockList(input: seq<byte>, offset: nat): (r: Option<seq<Block>>)
    decreases |input| - offset
  {
    if offset >= |input| then None
    else if input[offset] == 0x3b then Some([])
    else
      match BlockAt(input, offset)
      case None => None
      case Some((b, next)) => Prepend([b], BlockList(input, next))
  }

  function Prepend(done: seq<Block>, r: Option<seq<Block>>): (p: Option<seq<Block>>) {
    if r == None then None else Some(done + r.value)
  }

  function Inspected(input: seq<byte>): (r: Option<ImageHeader>) {
    if |input| < 13 then None
    else
      var width, height := LE16(input[6..8]), LE16(input[8..10]);
      if width == 0 || height == 0 then None
      else
        match BlockList(input, 13 + TableSize(input[10]))
        case None => None
        case Some(blocks) => Summary(width, height, blocks)
  }

  // ----- the descent recognises exactly the grammar -----

  ghost predicate Occurs(input: seq<byte>, offset: nat, s: seq<byte>) {
    offset + |s| <= |input| && input[offset..offset + |s|] == s
  }

  lemma OccursConcat(input: seq<byte>, offset: nat, a: seq<byte>, b: seq<byte>)
    ensures Occurs(input, offset, a + b) <==> Occurs(input, offset, a) && Occurs(input, offset + |a|, b)
  {
    if offset + |a| + |b| <= |input| {
      var whole := input[offset..offset + |a| + |b|];
      assert whole == input[offset..offset + |a|] + input[offset + |a|..offset + |a| + |b|];
      if whole == a + b {
        assert whole[..|a|] == a && whole[|a|..] == b;
      }
    }
  }

  lemma OccursByte(input: seq<byte>, offset: nat, x: byte)
    ensures Occurs(input, offset, [x]) <==> offset < |input| && input[offset] == x
  {
    if offset < |input| {
      assert input[offset..offset + 1] == [input[offset]];
    }
  }

  lemma OccursWord(input: seq<byte>, offset: nat, n: nat)
    requires n < 0x1_0000
    ensures Occurs(input, offset, PutLE16(n)) <==> offset + 2 <= |input| && LE16(input[offset..offset + 2]) == n
  {
    if offset + 2 <= |input| {
      var w := input[offset..offset + 2];
      assert w == [w[0], w[1]];
    }
  }

  /** A sub-block found in front of later data. */
  lemma OccursSubBlock(input: seq<byte>, offset: nat, head: seq<byte>, later: seq<byte>)
    requires offset < |input| && input[offset] as int == |head| && offset + 1 + |head| <= |input|
    requires input[offset + 1..offset + 1 + |head|] == head && Occurs(input, offset + 1 + |head|, later)
    ensures Occurs(input, offset, [input[offset]] + (head + later))
  {
    OccursByte(input, offset, input[offset]);
    OccursConcat(input, offset + 1, head, later);
    OccursConcat(input, offset, [input[offset]], head + later);
  }

  lemma {:induction false} DataDescent(input: seq<byte>, offset: nat)
    ensures var r := DataAt(input, offset);
      r.Some? ==>
        && DataWellFormed(r.value.0) && Occurs(input, offset, EncodeData(r.value.0))
        && r.value.1 == offset + |EncodeData(r.value.0)|
    decreases |input| - offset
  {
    var r := DataAt(input, offset);
    if r.Some? {
      var size := input[offset] as int;
      if size == 0 {
        OccursByte(input, offset, input[offset]);
      } else {
        hide Occurs;
        var head, data := input[offset + 1..offset + 1 + size], r.value.0;
        DataDescent(input, offset + 1 + size);
        assert data[0] == head && data[1..] == DataAt(input, offset + 1 + size).value.0;
        OccursSubBlock(input, offset, head, EncodeData(data[1..]));
      }
    }
  }

  /** The parts of a sub-block in front of later data. */
  lemma SubBlockFields(input: seq<byte>, offset: nat, head: seq<byte>, later: seq<byte>)
    requires |head| < 256 && Occurs(input, offset, [|head| as byte] + (head + later))
    ensures offset + 1 + |head| <= |input| && input[offset] as int == |head|
    ensures input[offset + 1..offset + 1 + |head|] == head && Occurs(input, offset + 1 + |head|, later)
  {
    OccursConcat(input, offset, [|head| as byte], head + later);
    OccursConcat(input, offset + 1, head, later);
    OccursByte(input, offset, |head| as byte);
  }

  lemma {:induction false} DataReadBack(input: seq<byte>, offset: nat, data: seq<seq<byte>>)
    requires DataWellFormed(data) && Occurs(input, offset, EncodeData(data))
    ensures DataAt(input, offset) == Some((data, offset + |EncodeData(data)|))
    decreases data
  {
    if data == [] {
      OccursByte(input, offset, 0);
    } else {
      assert EncodeData(data) == [|data[0]| as byte] + (data[0] + EncodeData(data[1..]));
      assert DataWellFormed(data[1..]);
      hide Occurs, EncodeData, DataWellFormed;
      SubBlockFields(input, offset, data[0], EncodeData(data[1..]));
      DataReadBack(input, offset + 1 + |data[0]|, data[1..]);
      assert [data[0]] + data[1..] == data;
    }
  }

  lemma ControlFields(input: seq<byte>, offset: nat, b: Block)
    requires b.GraphicControl? && BlockWellFormed(b)
    ensures Occurs(input, offset, EncodeBlock(b)) <==>
      && offset + 8 <= |input| && input[offset] == 0x21 && input[offset + 1] == 0xf9 && input[offset + 2] == 4
      && input[offset + 3] == b.flags && LE16(input[offset + 4..offset + 6]) == b.delay
      && input[offset + 6] == b.transparent && input[offset + 7] == 0
  {
    var t6: seq<byte> := [b.transparent] + [0];
    var t4 := PutLE16(b.delay) + t6;
    var t3 := [b.flags] + t4;
    var t2 := [4 as byte] + t3;
    var t1 := [0xf9 as byte] + t2;
    OccursConcat(input, offset, [0x21], t1);
    OccursConcat(input, offset + 1, [0xf9], t2);
    OccursConcat(input, offset + 2, [4], t3);
    OccursConcat(input, offset + 3, [b.flags], t4);
    OccursConcat(input, offset + 4, PutLE16(b.delay), t6);
    OccursConcat(input, offset + 6, [b.transparent], [0]);
    OccursByte(input, offset, 0x21);
    OccursByte(input, offset + 1, 0xf9);
    OccursByte(input, offset + 2, 4);
    OccursByte(input, offset + 3, b.flags);
    OccursWord(input, offset + 4, b.delay);
    OccursByte(input, offset + 6, b.transparent);
    OccursByte(input, offset + 7, 0);
  }

  lemma ExtensionFields(input: seq<byte>, offset: nat, b: Block)
    requires b.Extension? && BlockWellFormed(b)
    ensures Occurs(input, offset, EncodeBlock(b)) <==>
      && offset + 2 <= |input| && input[offset] == 0x21 && input[offset + 1] == b.kind
      && Occurs(input, offset + 2, EncodeData(b.data))
  {
    OccursConcat(input, offset, [0x21], [b.kind] + EncodeData(b.data));
    OccursConcat(input, offset + 1, [b.kind], EncodeData(b.data));
    OccursByte(input, offset, 0x21);
    OccursByte(input, offset + 1, b.kind);
  }

  lemma DescriptorFields(input: seq<byte>, offset: nat, position: seq<byte>, width: nat, height: nat, packed: byte)
    requires |position| == 4 && width < 0x1_0000 && height < 0x1_0000
    ensures Occurs(input, offset, EncodeDescriptor(position, width, height, packed)) <==>
      && offset + 10 <= |input| && input[offset] == 0x2c && input[offset + 1..offset + 5] == position
      && LE16(input[offset + 5..offset + 7]) == width && LE16(input[offset + 7..offset + 9]) == height
      && input[offset + 9] == packed
  {
    var t4 := PutLE16(height) + [packed];
    var t3 := PutLE16(width) + t4;
    var t2 := position + t3;
    OccursConcat(input, offset, [0x2c], t2);
    OccursConcat(input, offset + 1, position, t3);
    OccursConcat(input, offset + 5, PutLE16(width), t4);
    OccursConcat(input, offset + 7, PutLE16(height), [packed]);
    OccursByte(input, offset, 0x2c);
    OccursWord(input, offset + 5, width);
    OccursWord(input, offset + 7, height);
    OccursByte(input, offset + 9, packed);
  }

  lemma ImageFields(input: seq<byte>, offset: nat, b: Block)
    requires b.Image? && BlockWellFormed(b)
    ensures var code := offset + 10 + TableSize(b.packed);
      Occurs(input, offset, EncodeBlock(b)) <==>
        && Occurs(input, offset, EncodeDescriptor(b.position, b.width, b.height, b.packed))
        && code < |input| && input[offset + 10..code] == b.table && input[code] == b.codeSize
        && Occurs(input, code + 1, EncodeData(b.data))
  {
    var code := offset + 10 + TableSize(b.packed);
    var t7 := [b.codeSize] + EncodeData(b.data);
    OccursConcat(input, offset, EncodeDescriptor(b.position, b.width, b.height, b.packed), b.table + t7);
    OccursConcat(input, offset + 10, b.table, t7);
    OccursConcat(input, code, [b.codeSize], EncodeData(b.data));
    OccursByte(input, code, b.codeSize);
  }

  lemma ImageDescent(input: seq<byte>, offset: nat)
    requires 0 < offset <= |input| && input[offset - 1] == 0x2c && ImageAt(input, offset).Some?
    ensures var (b, next) := ImageAt(input, offset).value;
      && b.Image? && BlockWellFormed(b)
      && Occurs(input, offset - 1, EncodeBlock(b)) && next == offset - 1 + |EncodeBlock(b)|
  {
    var (b, next) := ImageAt(input, offset).value;
    DataDescent(input, offset + 10 + TableSize(b.packed));
    DescriptorFields(input, offset - 1, b.position, b.width, b.height, b.packed);
    ImageFields(input, offset - 1, b);
  }

  lemma ImageReadBack(input: seq<byte>, offset: nat, b: Block)
    requires b.Image? && BlockWellFormed(b) && Occurs(input, offset, EncodeBlock(b))
    ensures offset < |input| && input[offset] == 0x2c
    ensures ImageAt(input, offset + 1) == Some((b, offset + |EncodeBlock(b)|))
  {
    ImageFields(input, offset, b);
    DescriptorFields(input, offset, b.position, b.width, b.height, b.packed);
    DataReadBack(input, offset + 11 + TableSize(b.packed), b.data);
  }

  /** A block the descent reads is a well-formed block written there. */
  lemma BlockDescent(input: seq<byte>, offset: nat)
    requires offset < |input| && BlockAt(input, offset).Some?
    ensures var (b, next) := BlockAt(input, offset).value;
      BlockWellFormed(b) && Occurs(input, offset, EncodeBlock(b)) && next == offset + |EncodeBlock(b)|
  {
    var (b, next) := BlockAt(input, offset).value;
    match b
    case GraphicControl(_, _, _) => ControlFields(input, offset, b);
    case Extension(_, _) =>
      DataDescent(input, offset + 2);
      ExtensionFields(input, offset, b);
    case Image(_, _, _, _, _, _, _) => ImageDescent(input, offset + 1);
  }

  /** A well-formed block written somewhere is read back there. */
  lemma BlockReadBack(input: seq<byte>, offset: nat, b: Block)
    requires BlockWellFormed(b) && Occurs(input, offset, EncodeBlock(b))
    ensures offset < |input| && BlockAt(input, offset) == Some((b, offset + |EncodeBlock(b)|))
  {
    match b
    case GraphicControl(_, _, _) => ControlFields(input, offset, b);
    case Extension(_, data) =>
      ExtensionFields(input, offset, b);
      DataReadBack(input, offset + 2, data);
    case Image(_, _, _, _, _, _, _) => ImageReadBack(input, offset, b);
  }

  lemma EncodedFirst(b: Block, rest: seq<Block>)
    requires BlockWellFormed(b) && BlocksWellFormed(rest)
    ensures BlocksWellFormed([b] + rest)
    ensures EncodeBlocks([b] + rest) == EncodeBlock(b) + EncodeBlocks(rest)
  {
    assert ([b] + rest)[1..] == rest;
  }

  lemma {:induction false} BlockListDescent(input: seq<byte>, offset: nat)
    ensures var r := BlockList(input, offset);
      r.Some? ==> BlocksWellFormed(r.value) && Occurs(input, offset, EncodeBlocks(r.value))
    decreases |input| - offset
  {
    hide BlockAt, EncodeBlock, BlockWellFormed;
    var r := BlockList(input, offset);
    if r.Some? {
      if input[offset] == 0x3b {
        OccursByte(input, offset, 0x3b);
      } else {
        var (b, next) := BlockAt(input, offset).value;
        BlockDescent(input, offset);
        BlockListDescent(input, next);
        var rest := BlockList(input, next).value;
        EncodedFirst(b, rest);
        OccursConcat(input, offset, EncodeBlock(b), EncodeBlocks(rest));
      }
    }
  }

  lemma {:induction false} BlockListReadBack(input: seq<byte>, offset: nat, blocks: seq<Block>)
    requires BlocksWellFormed(blocks) && Occurs(input, offset, EncodeBlocks(blocks))
    ensures BlockList(input, offset) == Some(blocks)
    decreases blocks
  {
    hide BlockAt, EncodeBlock, BlockWellFormed;
    if blocks == [] {
      OccursByte(input, offset, 0x3b);
    } else {
      var b, later := blocks[0], EncodeBlocks(blocks[1..]);
      OccursConcat(input, offset, EncodeBlock(b), later);
      BlockReadBack(input, offset, b);
      OccursByte(input, offset, EncodeBlock(b)[0]);
      assert input[offset] == input[offset..offset + |EncodeBlock(b)|][0];
      BlockListReadBack(input, offset + |EncodeBlock(b)|, blocks[1..]);
      assert [b] + blocks[1..] == blocks;
    }
  }

  lemma ScreenFields(input: seq<byte>, signature: seq<byte>, width: nat, height: nat, packed: byte,
          background: byte, aspect: byte)
    requires |signature| == 6 && width < 0x1_0000 && height < 0x1_0000
    ensures Occurs(input, 0, EncodeScreen(signature, width, height, packed, background, aspect)) <==>
      && 13 <= |input| && input[..6] == signature
      && LE16(input[6..8]) == width && LE16(input[8..10]) == height
      && input[10] == packed && input[11] == background && input[12] == aspect
  {
    var t5: seq<byte> := [background] + [aspect];
    var t4 := [packed] + t5;
    var t3 := PutLE16(height) + t4;
    var t2 := PutLE16(width) + t3;
    OccursConcat(input, 0, signature, t2);
    OccursConcat(input, 6, PutLE16(width), t3);
    OccursConcat(input, 8, PutLE16(height), t4);
    OccursConcat(input, 10, [packed], t5);
    OccursConcat(input, 11, [background], [aspect]);
    OccursWord(input, 6, width);
    OccursWord(input, 8, height);
    OccursByte(input, 10, packed);
    OccursByte(input, 11, background);
    OccursByte(input, 12, aspect);
  }

  lemma DocumentParts(input: seq<byte>, doc: Document)
    requires WellFormed(doc)
    ensures Occurs(input, 0, Encode(doc)) <==>
      && Occurs(input, 0, EncodeScreen(doc.signature, doc.width, doc.height, doc.packed, doc.background, doc.aspect))
      && Occurs(input, 13, doc.table)
      && Occurs(input, 13 + TableSize(doc.packed), EncodeBlocks(doc.blocks))
  {
    OccursConcat(input, 0, EncodeScreen(doc.signature, doc.width, doc.height, doc.packed, doc.background, doc.aspect),
                 doc.table + EncodeBlocks(doc.blocks));
    OccursConcat(input, 13, doc.table, EncodeBlocks(doc.blocks));
  }

  /** Every accepted file is a document of the grammar followed by ignored bytes, and
      the header is that document's summary. */
  lemma AcceptedFilesAreDocuments(input: seq<byte>) returns (doc: Document)
    requires Inspected(input).Some?
    ensures WellFormed(doc) && Encode(doc) <= input
    ensures Inspected(input) == Summary(doc.width, doc.height, doc.blocks)
  {
    var start := 13 + TableSize(input[10]);
    BlockListDescent(input, start);
    doc := Document(input[..6], LE16(input[6..8]), LE16(input[8..10]), input[10], input[11], input[12],
                    input[13..start], BlockList(input, start).value);
    DocumentParts(input, doc);
    ScreenFields(input, doc.signature, doc.width, doc.height, doc.packed, doc.background, doc.aspect);
  }

  /** Every document of the grammar, whatever follows it, is reported as its summary. */
  lemma DocumentsAreReportedAsTheirSummary(doc: Document, tail: seq<byte>)
    requires WellFormed(doc)
    ensures Inspected(Encode(doc) + tail) == Summary(doc.width, doc.height, doc.blocks)
  {
    var input := Encode(doc) + tail;
    assert input[..|Encode(doc)|] == Encode(doc);
    DocumentParts(input, doc);
    ScreenFields(input, doc.signature, doc.width, doc.height, doc.packed, doc.background, doc.aspect);
    BlockListReadBack(input, 13 + TableSize(doc.packed), doc.blocks);
  }

  // ----- the loops -----

  /** skipGIFSubBlocks. */
  method SkipSubBlocks(input: seq<byte>, offset: nat) returns (r: Option<nat>)
    ensures r == EndOf(DataAt(input, offset))
  {
    var at := offset;
    while at < |input|
      invariant EndOf(DataAt(input, at)) == EndOf(DataAt(input, offset))
    {
      var size := input[at] as int;
      at := at + 1;
      if size == 0 {
        return Some(at);
      }
      if size > |input| - at {
        return None;
      }
      at := at + size;
    }
    return None;
  }

  function EndOf(r: Option<(seq<seq<byte>>, nat)>): Option<nat> {
    if r == None then None else Some(r.value.1)
  }

  /** The accumulators of inspectGIF. */
  datatype Totals = Totals(
    maxFrameWidth: nat, maxFrameHeight: nat, frames: nat, duration: nat, totalFramePixels: nat, pendingDelay: nat)

  /** They stand for these blocks. */
  ghost predicate Stands(t: Totals, done: seq<Block>, width: nat, height: nat) {
    && t.maxFrameWidth == WidestFrame(width, Frames(done))
    && t.maxFrameHeight == TallestFrame(height, Frames(done))
    && t.frames == |Frames(done)|
    && t.duration == Min(DelaySum(Frames(done)), MAX_INT64)
    && t.totalFramePixels == Min(AreaSum(Frames(done)), MAX_UINT64)
    && t.pendingDelay == PendingDelay(done) <= 655350
  }

  lemma StandsAtStart(width: nat, height: nat)
    ensures Stands(Totals(width, height, 0, 0, 0, 0), [], width, height)
  {
  }

  lemma StandsAfterExtension(t: Totals, done: seq<Block>, width: nat, height: nat, b: Block, pendingDelay: nat)
    requires Stands(t, done, width, height) && !b.Image? && pendingDelay <= 655350
    requires pendingDelay == if b.GraphicControl? then 10 * b.delay else t.pendingDelay
    ensures Stands(t.(pendingDelay := pendingDelay), done + [b], width, height)
  {
    FramesAfter(done, b);
  }

  lemma StandsBound(t: Totals, done: seq<Block>, width: nat, height: nat)
    requires Stands(t, done, width, height)
    ensures t.pendingDelay <= 655350 && t.totalFramePixels <= MAX_UINT64 && t.duration <= MAX_INT64
  {
  }

  /** One frame of the given size, shown for the pending delay. */
  function WithFrame(t: Totals, width: nat, height: nat): (r: Totals)
    requires t.totalFramePixels <= MAX_UINT64 && t.duration <= MAX_INT64 && t.pendingDelay <= MAX_INT64
    requires width <= MAX_UINT64 && height <= MAX_UINT64
  {
    Totals(
      if width > t.maxFrameWidth then width else t.maxFrameWidth,
      if height > t.maxFrameHeight then height else t.maxFrameHeight,
      t.frames + 1, AddDelay(t.duration, t.pendingDelay), AddArea(t.totalFramePixels, width, height), 0)
  }

  lemma StandsAfterImage(t: Totals, done: seq<Block>, width: nat, height: nat, b: Block)
    requires Stands(t, done, width, height) && b.Image? && b.width < 0x1_0000 && b.height < 0x1_0000
    ensures t.totalFramePixels <= MAX_UINT64 && t.duration <= MAX_INT64 && t.pendingDelay <= MAX_INT64
    ensures Stands(WithFrame(t, b.width, b.height), done + [b], width, height)
  {
    hide AddDelay, AddArea;
    FramesAfter(done, b);
    SumsAfter(Frames(done), Frame(b.width, b.height, t.pendingDelay), width, height);
  }

  /** The report of these totals. */
  function Report(t: Totals, width: nat, height: nat): (r: Option<ImageHeader>) {
    if t.frames == 0 then None
    else
      Some(ImageHeader(GIF, width, height, t.maxFrameWidth, t.maxFrameHeight, t.frames, t.duration,
                       t.totalFramePixels, None))
  }

  lemma StandsReports(t: Totals, done: seq<Block>, width: nat, height: nat)
    requires Stands(t, done, width, height)
    ensures Report(t, width, height) == Summary(width, height, done)
  {
  }

  lemma FramesAfter(done: seq<Block>, b: Block)
    ensures PendingDelay(done + [b]) ==
      match b
      case GraphicControl(_, delay, _) => 10 * delay
      case Image(_, _, _, _, _, _, _) => 0
      case Extension(_, _) => PendingDelay(done)
    ensures Frames(done + [b]) ==
      if b.Image? then Frames(done) + [Frame(b.width, b.height, PendingDelay(done))] else Frames(done)
  {
    assert (done + [b])[..|done|] == done;
  }

  lemma SumsAfter(frames: seq<Frame>, f: Frame, width: nat, height: nat)
    ensures AreaSum(frames + [f]) == AreaSum(frames) + f.width * f.height
    ensures DelaySum(frames + [f]) == DelaySum(frames) + f.delayMS
    ensures WidestFrame(width, frames + [f]) == Max(WidestFrame(width, frames), f.width)
    ensures TallestFrame(height, frames + [f]) == Max(TallestFrame(height, frames), f.height)
  {
    assert (frames + [f])[..|frames|] == frames;
  }

  /** The image-descriptor case: its end, its size, or failure. */
  method ReadImage(input: seq<byte>, offset: nat) returns (ok: bool, next: nat, frameWidth: nat, frameHeight: nat)
    ensures ok <==> ImageAt(input, offset).Some?
    ensures ok ==>
      var (b, end) := ImageAt(input, offset).value;
      b.Image? && next == end && frameWidth == b.width < 0x1_0000 && frameHeight == b.height < 0x1_0000
  {
    ok, next, frameWidth, frameHeight := false, offset, 0, 0;
    if next + 9 > |input| {
      return;
    }
    frameWidth := LE16(input[next + 4..next + 6]);
    frameHeight := LE16(input[next + 6..next + 8]);
    if frameWidth == 0 || frameHeight == 0 {
      return;
    }
    var localPacked := input[next + 8];
    next := next + 9;
    if localPacked >= 0x80 {
      var tableSize := TableSize(localPacked);
      if next + tableSize > |input| {
        return;
      }
      next := next + tableSize;
    }
    if next >= |input| {
      return;
    }
    next := next + 1;
    var skipped := SkipSubBlocks(input, next);
    if skipped == None {
      return;
    }
    ok, next := true, skipped.value;
  }

  /** The extension case: its end and, for a graphic control, the new pending delay. */
  method ReadExtension(input: seq<byte>, offset: nat, pending: nat) returns (ok: bool, next: nat, pendingDelay: nat)
    requires 0 < offset <= |input| && input[offset - 1] == 0x21
    ensures ok <==> BlockAt(input, offset - 1).Some?
    ensures ok ==>
      var (b, end) := BlockAt(input, offset - 1).value;
      !b.Image? && next == end && pendingDelay == if b.GraphicControl? then 10 * b.delay else pending
    ensures ok && pending <= 655350 ==> pendingDelay <= 655350
  {
    ok, next, pendingDelay := false, offset, pending;
    if next >= |input| {
      return;
    }
    var kind := input[next];
    next := next + 1;
    if kind == 0xf9 {
      if next + 6 > |input| || input[next] != 4 {
        return;
      }
      pendingDelay := LE16(input[next + 2..next + 4]) * 10;
      next := next + 5;
      if next >= |input| || input[next] != 0 {
        return;
      }
      ok, next := true, next + 1;
      return;
    }
    var skipped := SkipSubBlocks(input, next);
    if skipped == None {
      return;
    }
    ok, next := true, skipped.value;
  }

  /** The report due when these blocks are done and those are left. */
  function Resumed(width: nat, height: nat, done: seq<Block>, left: Option<seq<Block>>): (r: Option<ImageHeader>) {
    if left == None then None else Summary(width, height, done + left.value)
  }

  lemma ResumedStep(input: seq<byte>, offset: nat, width: nat, height: nat, done: seq<Block>)
    requires offset < |input| && input[offset] != 0x3b
    ensures Resumed(width, height, done, BlockList(input, offset)) ==
      match BlockAt(input, offset)
      case None => None
      case Some((b, next)) => Resumed(width, height, done + [b], BlockList(input, next))
  {
    match BlockAt(input, offset)
    case None =>
    case Some((b, next)) =>
      var rest := BlockList(input, next);
      if rest.Some? {
        assert done + ([b] + rest.value) == done + [b] + rest.value;
      }
  }

  /** The trailer, and the end of the input, finish the list. */
  lemma ResumedAtEnd(input: seq<byte>, offset: nat, width: nat, height: nat, done: seq<Block>)
    ensures offset >= |input| ==> Resumed(width, height, done, BlockList(input, offset)) == None
    ensures offset < |input| && input[offset] == 0x3b ==>
      Resumed(width, height, done, BlockList(input, offset)) == Summary(width, height, done)
  {
    assert done + [] == done;
  }

  lemma ResumedAtStart(width: nat, height: nat, left: Option<seq<Block>>)
    ensures Resumed(width, height, [], left) == if left == None then None else Summary(width, height, left.value)
  {
    if left.Some? {
      assert [] + left.value == left.value;
    }
  }

  lemma OnlyKnownBlocks(input: seq<byte>, offset: nat)
    requires offset < |input|
    ensures BlockAt(input, offset).Some? ==> input[offset] == 0x21 || input[offset] == 0x2c
    ensures input[offset] == 0x2c ==> BlockAt(input, offset) == ImageAt(input, offset + 1)
  {
  }

  /** inspectGIF from the first block on. */
  method InspectBlocks(input: seq<byte>, width: nat, height: nat, start: nat) returns (r: Option<ImageHeader>)
    requires start <= |input|
    ensures r == Resumed(width, height, [], BlockList(input, start))
  {
    hide Stands, WithFrame, Resumed, BlockList, BlockAt, ImageAt, Summary;
    var offset, totals := start, Totals(width, height, 0, 0, 0, 0);
    ghost var goal := Resumed(width, height, [], BlockList(input, start));
    ghost var done: seq<Block> := [];
    StandsAtStart(width, height);
    while offset < |input|
      invariant offset <= |input|
      invariant Stands(totals, done, width, height)
      invariant Resumed(width, height, done, BlockList(input, offset)) == goal
    {
      var block := input[offset];
      if block == 0x3b {
        ResumedAtEnd(input, offset, width, height, done);
        StandsReports(totals, done, width, height);
        return Report(totals, width, height);
      }
      ResumedStep(input, offset, width, height, done);
      OnlyKnownBlocks(input, offset);
      StandsBound(totals, done, width, height);
      ghost var read := BlockAt(input, offset);
      offset := offset + 1;
      var ok;
      if block == 0x21 {
        var pendingDelay;
        ok, offset, pendingDelay := ReadExtension(input, offset, totals.pendingDelay);
        if !ok {
          return None;
        }
        StandsAfterExtension(totals, done, width, height, read.value.0, pendingDelay);
        totals := totals.(pendingDelay := pendingDelay);
      } else if block == 0x2c {
        var frameWidth, frameHeight;
        ok, offset, frameWidth, frameHeight := ReadImage(input, offset);
        if !ok {
          return None;
        }
        StandsAfterImage(totals, done, width, height, read.value.0);
        totals := WithFrame(totals, frameWidth, frameHeight);
      } else {
        return None;
      }
      done := done + [read.value.0];
    }
    ResumedAtEnd(input, offset, width, height, done);
    return None;
  }

  /** inspectGIF. */
  method Inspect(input: seq<byte>) returns (r: Option<ImageHeader>)
    ensures r == Inspected(input)
  {
    if |input| < 13 {
      return None;
    }
    var width, height := LE16(input[6..8]), LE16(input[8..10]);
    if width == 0 || height == 0 {
      return None;
    }
    var offset := 13;
    var packed := input[10];
    if packed >= 0x80 {
      var tableSize := TableSize(packed);
      if offset + tableSize > |input| {
        return None;
      }
      offset := offset + tableSize;
    }
    hide BlockList, Summary, Resumed;
    r := InspectBlocks(input, width, height, offset);
    ResumedAtStart(width, height, BlockList(input, offset));
  }

  lemma {:induction false} BlocksNeedBytes(blocks: seq<Block>)
    requires BlocksWellFormed(blocks)
    ensures |blocks| < |EncodeBlocks(blocks)|
  {
    if blocks != [] {
      BlocksNeedBytes(blocks[1..]);
    }
  }

  lemma {:induction false} FramesFit(blocks: seq<Block>, width: nat, height: nat)
    requires BlocksWellFormed(blocks) && width < 0x1_0000 && height < 0x1_0000
    ensures |Frames(blocks)| <= |blocks|
    ensures WidestFrame(width, Frames(blocks)) < 0x1_0000
    ensures TallestFrame(height, Frames(blocks)) < 0x1_0000
  {
    if blocks != [] {
      var earlier, b := blocks[..|blocks| - 1], blocks[|blocks| - 1];
      FramesFit(earlier, width, height);
      if b.Image? {
        SumsAfter(Frames(earlier), Frame(b.width, b.height, PendingDelay(earlier)), width, height);
      }
    }
  }

  /** End to end: a GIF that passes inspection and the budget check is a document within
      the limits in unbounded arithmetic, frame by frame. */
  lemma AcceptedGifIsWithinBudget(input: seq<byte>, limits: Limits) returns (doc: Document)
    requires Normalized(limits)
    requires |input| <= MAX_INT64 && Inspected(input).Some?
    ensures WellFormed(doc) && Encode(doc) <= input && Representable(Inspected(input).value)
    ensures ValidateHeader(Inspected(input).value, limits) == Accepted ==>
      var frames := Frames(doc.blocks);
      && 1 <= |frames| <= limits.maxFrames
      && doc.width * doc.height * |frames| <= limits.maxInputPixels
      && AreaSum(frames) <= limits.maxInputPixels && DurationWithin(frames, limits)
  {
    doc := AcceptedFilesAreDocuments(input);
    BlocksNeedBytes(doc.blocks);
    FramesFit(doc.blocks, doc.width, doc.height);
    AcceptedMeansExactlyWithinBudget(Inspected(input).value, Frames(doc.blocks), limits);
  }
}
