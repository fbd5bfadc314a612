/** The composer: building the editor tree from the blocks of a document, and reading the
    blocks back from a tree. */
module Composer {
  import opened Sequences

  datatype Block = Text(text: string) | Mention(userId: string, name: string) | Emote(token: string, item: nat)

  datatype Document = Document(source: string, blocks: seq<Block>)

  datatype Node =
    | TextNode(content: string) | LineBreak | MentionNode(userId: string, name: string)
    | EmoteNode(token: string, item: nat) | Element(children: seq<Node>)

  // ----- the normal form of a block list -----

  /** replace(/\r\n?/g, "\n"). */
  function Normalize(s: string): (r: string)
    ensures '\r' !in r
  {
    if s == "" then ""
    else if s[0] == '\r' then "\n" + Normalize(if |s| > 1 && s[1] == '\n' then s[2..] else s[1..])
    else [s[0]] + Normalize(s[1..])
  }

  ghost predicate SplitsCRLF(s: string, t: string) {
    s != "" && s[|s| - 1] == '\r' && t != "" && t[0] == '\n'
  }

  function HeadLength(s: string): (n: nat)
    requires s != ""
    ensures n <= |s|
  {
    if s[0] == '\r' && |s| > 1 && s[1] == '\n' then 2 else 1
  }

  function HeadResult(s: string): (r: string)
    requires s != ""
  {
    if s[0] == '\r' then "\n" else [s[0]]
  }

  lemma NormalizeHead(s: string)
    requires s != ""
    ensures Normalize(s) == HeadResult(s) + Normalize(s[HeadLength(s)..])
  {
  }

  lemma HeadOfConcat(s: string, t: string)
    requires s != "" && !SplitsCRLF(s, t)
    ensures HeadLength(s + t) == HeadLength(s) && HeadResult(s + t) == HeadResult(s)
    ensures (s + t)[HeadLength(s)..] == s[HeadLength(s)..] + t && !SplitsCRLF(s[HeadLength(s)..], t)
  {
  }

  lemma {:induction false} NormalizeSplits(s: string, t: string)
    requires !SplitsCRLF(s, t)
    ensures Normalize(s + t) == Normalize(s) + Normalize(t)
    decreases |s|
  {
    if s == "" {
      assert s + t == t;
      assert "" + Normalize(t) == Normalize(t);
    } else {
      HeadOfConcat(s, t);
      NormalizeHead(s);
      NormalizeHead(s + t);
      assert HeadLength(s) > 0;
      hide Normalize, SplitsCRLF, HeadLength, HeadResult;
      var later := s[HeadLength(s)..];
      NormalizeSplits(later, t);
      ConcatAssociates(HeadResult(s), Normalize(later), Normalize(t));
    }
  }

  /** Wherever it stands, a carriage return with a line feed behind it, one without, and a
      line feed without a carriage return before it become one line feed each, and every
      other character stays. */
  lemma LineEndingsBecomeOne(s: string, t: string, c: char)
    requires c != '\r' && c != '\n'
    ensures Normalize(s + "\r\n" + t) == Normalize(s) + "\n" + Normalize(t)
    ensures (t == "" || t[0] != '\n') ==> Normalize(s + "\r" + t) == Normalize(s) + "\n" + Normalize(t)
    ensures (s == "" || s[|s| - 1] != '\r') ==> Normalize(s + "\n" + t) == Normalize(s) + "\n" + Normalize(t)
    ensures Normalize(s + [c] + t) == Normalize(s) + [c] + Normalize(t)
  {
    NormalizePiece("\r\n", "\n");
    NormalizePiece("\r", "\n");
    NormalizePiece("\n", "\n");
    NormalizePiece([c], [c]);
    InContext(s, "\r\n", "\n", t);
    if t == "" || t[0] != '\n' {
      InContext(s, "\r", "\n", t);
    }
    if s == "" || s[|s| - 1] != '\r' {
      InContext(s, "\n", "\n", t);
    }
    InContext(s, [c], [c], t);
  }

  lemma NormalizePiece(piece: string, r: string)
    requires piece == "\r\n" || piece == "\r" || (|piece| == 1 && piece[0] != '\r')
    requires r == if piece[0] == '\r' then "\n" else piece
    ensures Normalize(piece) == r
  {
    var n := |piece|;
    assert piece[n..] == "";
    assert Normalize(piece) == r + Normalize("");
  }

  lemma InContext(s: string, piece: string, r: string, t: string)
    requires Normalize(piece) == r && !SplitsCRLF(s, piece) && !SplitsCRLF(s + piece, t)
    ensures Normalize(s + piece + t) == Normalize(s) + r + Normalize(t)
  {
    hide Normalize;
    NormalizeSplits(s + piece, t);
    NormalizeSplits(s, piece);
  }

  function Normalized(b: Block): (r: Block) {
    if b.Text? then Text(Normalize(b.text)) else b
  }

  /** Appends a block: an empty text is dropped, a text behind a text joins it. */
  function Appended(blocks: seq<Block>, b: Block): (r: seq<Block>) {
    if !b.Text? then blocks + [b]
    else if b.text == "" then blocks
    else if blocks != [] && blocks[|blocks| - 1].Text? then
      blocks[..|blocks| - 1] + [Text(blocks[|blocks| - 1].text + b.text)]
    else blocks + [b]
  }

  function AppendedAll(blocks: seq<Block>, more: seq<Block>): (r: seq<Block>) {
    if more == [] then blocks else Appended(AppendedAll(blocks, more[..|more| - 1]), more[|more| - 1])
  }

  function NormalForm(blocks: seq<Block>): (r: seq<Block>) {
    AppendedAll([], Map(blocks, Normalized))
  }

  function BlockSource(b: Block): (s: string) {
    match b
    case Text(text) => text
    case Mention(_, name) => "@" + name
    case Emote(token, _) => token
  }

  function Source(blocks: seq<Block>): (s: string) {
    if blocks == [] then "" else Source(blocks[..|blocks| - 1]) + BlockSource(blocks[|blocks| - 1])
  }

  /** The source text is the concatenation of the parts' own. */
  lemma {:induction false} SourceIsConcatenation(a: seq<Block>, b: seq<Block>)
    ensures Source(a + b) == Source(a) + Source(b)
    decreases |b|
  {
    if b == [] {
      assert a + b == a;
    } else {
      hide BlockSource;
      var init, last := b[..|b| - 1], BlockSource(b[|b| - 1]);
      SourceIsConcatenation(a, init);
      assert (a + b)[..|a + b| - 1] == a + init;
      ConcatAssociates(Source(a), Source(init), last);
    }
  }

  /** Its parts are texts, names behind an at sign, and emote tokens. */
  lemma SourceOfOneBlock(text: string, id: string, item: nat)
    ensures Source([Text(text)]) == text
    ensures Source([Mention(id, text)]) == "@" + text
    ensures Source([Emote(text, item)]) == text
  {
    OwnSource(Text(text), text);
    OwnSource(Mention(id, text), "@" + text);
    OwnSource(Emote(text, item), text);
  }

  lemma OwnSource(b: Block, s: string)
    requires BlockSource(b) == s
    ensures Source([b]) == s
  {
    assert [b][..0] == [];
    assert "" + s == s;
  }

  ghost predicate IsNormal(blocks: seq<Block>) {
    && (forall b :: b in blocks && b.Text? ==> b.text != "" && '\r' !in b.text)
    && (forall i :: 0 < i < |blocks| ==> !(blocks[i - 1].Text? && blocks[i].Text?))
  }

  lemma AppendedIsNormal(blocks: seq<Block>, b: Block)
    requires IsNormal(blocks) && (b.Text? ==> '\r' !in b.text)
    ensures IsNormal(Appended(blocks, b))
  {
  }

  /** A normal form has no empty and no adjacent texts and no carriage returns. */
  lemma {:induction false} NormalFormIsNormal(blocks: seq<Block>)
    ensures IsNormal(NormalForm(blocks))
  {
    hide IsNormal, Appended;
    if blocks == [] {
      EmptyIsNormal();
    } else {
      var init := blocks[..|blocks| - 1];
      NormalFormIsNormal(init);
      NormalFormStep(blocks);
      AppendedIsNormal(NormalForm(init), Normalized(blocks[|blocks| - 1]));
    }
  }

  lemma EmptyIsNormal()
    ensures IsNormal([])
  {
  }

  lemma NormalFormStep(blocks: seq<Block>)
    requires blocks != []
    ensures NormalForm(blocks) == Appended(NormalForm(blocks[..|blocks| - 1]), Normalized(blocks[|blocks| - 1]))
  {
    assert Map(blocks, Normalized)[..|blocks| - 1] == Map(blocks[..|blocks| - 1], Normalized);
  }

  lemma {:induction false} NothingToNormalize(s: string)
    requires '\r' !in s
    ensures Normalize(s) == s
  {
    if s != "" {
      NothingToNormalize(s[1..]);
      assert s == [s[0]] + s[1..];
    }
  }

  /** Appending behind a normal list a block that keeps it normal. */
  lemma AppendedBehind(init: seq<Block>, last: Block)
    requires IsNormal(init + [last])
    ensures IsNormal(init) && Appended(init, last) == init + [last] && (last.Text? ==> '\r' !in last.text)
  {
    var all := init + [last];
    assert all[|init|] == last && last in all;
    assert init != [] ==> all[|init| - 1] == init[|init| - 1];
    assert forall i :: 0 <= i < |init| ==> all[i] == init[i];
    assert forall b :: b in init ==> b in all;
  }

  lemma {:induction false} NormalFormsAreFixed(blocks: seq<Block>)
    requires IsNormal(blocks)
    ensures NormalForm(blocks) == blocks
  {
    if blocks != [] {
      hide IsNormal, Appended, Normalize;
      var init, last := blocks[..|blocks| - 1], blocks[|blocks| - 1];
      assert blocks == init + [last];
      AppendedBehind(init, last);
      NormalFormsAreFixed(init);
      NormalFormStep(blocks);
      if last.Text? {
        NothingToNormalize(last.text);
      }
    }
  }

  /** What a reader sees: the characters and the tokens, in order. */
  datatype Item = Char(c: char) | Token(b: Block)

  function BlockItems(b: Block): (r: seq<Item>) {
    if b.Text? then seq(|b.text|, i requires 0 <= i < |b.text| => Char(b.text[i])) else [Token(b)]
  }

  function Items(blocks: seq<Block>): (r: seq<Item>) {
    if blocks == [] then [] else Items(blocks[..|blocks| - 1]) + BlockItems(blocks[|blocks| - 1])
  }

  lemma PushedItems(blocks: seq<Block>, b: Block)
    ensures Items(blocks + [b]) == Items(blocks) + BlockItems(b)
    ensures Source(blocks + [b]) == Source(blocks) + BlockSource(b)
  {
    assert (blocks + [b])[..|blocks|] == blocks;
  }

  lemma JoinedItems(s: string, t: string)
    ensures BlockItems(Text(s + t)) == BlockItems(Text(s)) + BlockItems(Text(t))
  {
  }

  lemma AppendedKeepsItems(blocks: seq<Block>, b: Block)
    ensures Items(Appended(blocks, b)) == Items(blocks) + BlockItems(b)
    ensures Source(Appended(blocks, b)) == Source(blocks) + BlockSource(b)
  {
    if !b.Text? || (b.text != "" && (blocks == [] || !blocks[|blocks| - 1].Text?)) {
      PushedItems(blocks, b);
    } else if b.text != "" {
      var init, last := blocks[..|blocks| - 1], blocks[|blocks| - 1];
      assert blocks == init + [last];
      hide BlockItems, Items, Source;
      PushedItems(init, last);
      PushedItems(init, Text(last.text + b.text));
      JoinedItems(last.text, b.text);
    }
  }

  /** Normalising keeps every character and token, in order, up to line endings, and the
      source text is the concatenation of the blocks' own. */
  lemma {:induction false} NormalFormKeepsContent(blocks: seq<Block>)
    ensures Items(NormalForm(blocks)) == Items(Map(blocks, Normalized))
    ensures Source(NormalForm(blocks)) == Source(Map(blocks, Normalized))
  {
    hide Normalized, BlockItems, BlockSource, Appended;
    if blocks != [] {
      var init, last := blocks[..|blocks| - 1], blocks[|blocks| - 1];
      NormalFormKeepsContent(init);
      NormalFormStep(blocks);
      AppendedKeepsItems(NormalForm(init), Normalized(last));
      assert Map(blocks, Normalized)[..|blocks| - 1] == Map(init, Normalized);
    }
  }

  function ItemBlock(item: Item): (b: Block) {
    match item
    case Char(c) => Text([c])
    case Token(b) => b
  }

  /** Appends the items one by one. */
  function Grouped(items: seq<Item>): (r: seq<Block>) {
    if items == [] then [] else Appended(Grouped(items[..|items| - 1]), ItemBlock(items[|items| - 1]))
  }

  lemma {:induction false} TextGrouped(items: seq<Item>, text: string)
    ensures Grouped(items + BlockItems(Text(text))) == Appended(Grouped(items), Text(text))
  {
    hide Appended;
    if text == "" {
      NothingAppended(Grouped(items));
      assert items + BlockItems(Text(text)) == items;
    } else {
      var n := |text| - 1;
      var all := items + BlockItems(Text(text));
      TextGrouped(items, text[..n]);
      assert all[..|all| - 1] == items + BlockItems(Text(text[..n])) && all[|all| - 1] == Char(text[n]);
      TextInTwo(Grouped(items), text[..n], [text[n]]);
      assert text == text[..n] + [text[n]];
    }
  }

  lemma {:induction false} BlocksGrouped(blocks: seq<Block>)
    ensures Grouped(Items(blocks)) == AppendedAll([], blocks)
  {
    hide Appended;
    if blocks != [] {
      var init, last := blocks[..|blocks| - 1], blocks[|blocks| - 1];
      BlocksGrouped(init);
      if last.Text? {
        TextGrouped(Items(init), last.text);
      } else {
        assert Items(blocks)[..|Items(blocks)| - 1] == Items(init);
      }
    }
  }

  /** The normal form is the only normal list with its content. */
  lemma NormalFormIsUnique(a: seq<Block>, b: seq<Block>)
    requires IsNormal(a) && IsNormal(b) && Items(a) == Items(b)
    ensures a == b
  {
    hide Appended, IsNormal;
    NormalListsAppend(a);
    NormalListsAppend(b);
    BlocksGrouped(a);
    BlocksGrouped(b);
  }

  lemma {:induction false} NormalListsAppend(blocks: seq<Block>)
    requires IsNormal(blocks)
    ensures AppendedAll([], blocks) == blocks
  {
    if blocks != [] {
      hide IsNormal, Appended;
      var init, last := blocks[..|blocks| - 1], blocks[|blocks| - 1];
      assert blocks == init + [last];
      AppendedBehind(init, last);
      NormalListsAppend(init);
    }
  }

  // ----- trees -----

  /** The leaves of a tree as blocks, not yet joined. */
  function Pieces(node: Node): (r: seq<Block>)
    decreases node
  {
    match node
    case TextNode(content) => [Text(content)]
    case LineBreak => [Text("\n")]
    case MentionNode(userId, name) => [Mention(userId, name)]
    case EmoteNode(token, item) => [Emote(token, item)]
    case Element(children) => AllPieces(children)
  }

  function AllPieces(nodes: seq<Node>): (r: seq<Block>)
    decreases nodes
  {
    if nodes == [] then [] else AllPieces(nodes[..|nodes| - 1]) + Pieces(nodes[|nodes| - 1])
  }

  /** The children of the root, with a line break between neighbours. */
  function RootPieces(nodes: seq<Node>): (r: seq<Block>) {
    if nodes == [] then []
    else if |nodes| == 1 then Pieces(nodes[0])
    else RootPieces(nodes[..|nodes| - 1]) + [Text("\n")] + Pieces(nodes[|nodes| - 1])
  }

  lemma {:induction false} AppendedInTwo(blocks: seq<Block>, a: seq<Block>, b: seq<Block>)
    ensures AppendedAll(blocks, a + b) == AppendedAll(AppendedAll(blocks, a), b)
  {
    hide Appended;
    if b == [] {
      assert a + b == a;
    } else {
      AppendedInTwo(blocks, a, b[..|b| - 1]);
      assert (a + b)[..|a + b| - 1] == a + b[..|b| - 1];
    }
  }

  /** Appending two texts is appending their concatenation. */
  lemma TextInTwo(blocks: seq<Block>, s: string, t: string)
    ensures Appended(Appended(blocks, Text(s)), Text(t)) == Appended(blocks, Text(s + t))
  {
    if s == "" {
      assert s + t == t;
    } else if t == "" {
      assert s + t == s;
    } else if blocks != [] && blocks[|blocks| - 1].Text? {
      var last := blocks[|blocks| - 1].text;
      assert (last + s) + t == last + (s + t);
    }
  }

  // ----- lines -----

  /** split("\n"). */
  function Lines(s: string): (r: seq<string>)
    ensures |r| > 0
  {
    if s == "" then [""]
    else
      var rest := Lines(s[1..]);
      if s[0] == '\n' then [""] + rest else [[s[0]] + rest[0]] + rest[1..]
  }

  lemma {:induction false} LinesAreParts(s: string, line: string)
    requires line in Lines(s)
    ensures '\n' !in line && forall c :: c in line ==> c in s
  {
    if s != "" {
      var rest := Lines(s[1..]);
      assert forall c :: c in s[1..] ==> c in s;
      if s[0] != '\n' && line == [s[0]] + rest[0] {
        LinesAreParts(s[1..], rest[0]);
      } else if line in rest {
        LinesAreParts(s[1..], line);
      }
    }
  }

  function JoinLines(lines: seq<string>): (r: string) {
    if lines == [] then "" else if |lines| == 1 then lines[0]
    else JoinLines(lines[..|lines| - 1]) + "\n" + lines[|lines| - 1]
  }

  lemma {:induction false} JoinLinesFront(first: string, rest: seq<string>)
    requires rest != []
    ensures JoinLines([first] + rest) == first + "\n" + JoinLines(rest)
  {
    var all := [first] + rest;
    if |rest| == 1 {
      assert all[..|all| - 1] == [first];
    } else {
      var init := JoinLines(rest[..|rest| - 1]);
      JoinLinesFront(first, rest[..|rest| - 1]);
      assert all[..|all| - 1] == [first] + rest[..|rest| - 1] && all[|all| - 1] == rest[|rest| - 1];
      assert first + "\n" + (init + "\n" + rest[|rest| - 1]) == (first + "\n" + init) + "\n" + rest[|rest| - 1];
    }
  }

  lemma CharInFront(c: char, line: string, rest: string)
    ensures ([c] + line) + "\n" + rest == [c] + (line + "\n" + rest)
  {
    ConcatAssociates([c], line, "\n");
    ConcatAssociates([c], line + "\n", rest);
  }

  /** A character in front of the first line. */
  lemma JoinExtended(c: char, line: string, rest: seq<string>)
    ensures JoinLines([[c] + line] + rest) == [c] + JoinLines([line] + rest)
  {
    if rest == [] {
      assert [line] + rest == [line] && [[c] + line] + rest == [[c] + line];
    } else {
      hide JoinLines;
      JoinLinesFront(line, rest);
      JoinLinesFront([c] + line, rest);
      CharInFront(c, line, JoinLines(rest));
    }
  }

  lemma {:induction false} SplitThenJoin(s: string)
    ensures JoinLines(Lines(s)) == s
  {
    if s != "" {
      var rest := Lines(s[1..]);
      SplitThenJoin(s[1..]);
      assert s == [s[0]] + s[1..];
      hide JoinLines;
      if s[0] == '\n' {
        JoinLinesFront("", rest);
      } else {
        JoinExtended(s[0], rest[0], rest[1..]);
        assert rest == [rest[0]] + rest[1..];
      }
    }
  }

  // ----- the editor -----

  ghost predicate IsPlainLeaf(n: Node) {
    match n
    case TextNode(content) => content != "" && '\n' !in content && '\r' !in content
    case MentionNode(_, _) => true
    case EmoteNode(_, _) => true
    case LineBreak => false
    case Element(_) => false
  }

  /** Paragraphs of one line each. */
  ghost predicate ArePlainParagraphs(root: seq<Node>) {
    root != [] && forall p :: p in root ==> p.Element? && forall n :: n in p.children ==> IsPlainLeaf(n)
  }

  lemma LeafAppended(init: seq<Node>, children: seq<Node>, leaf: Node)
    ensures RootPieces(init + [Element(children + [leaf])]) == RootPieces(init + [Element(children)]) + Pieces(leaf)
  {
    var before, after := init + [Element(children)], init + [Element(children + [leaf])];
    assert before[..|before| - 1] == init && after[..|after| - 1] == init;
    assert (children + [leaf])[..|children + [leaf]| - 1] == children;
    assert AllPieces(children + [leaf]) == AllPieces(children) + Pieces(leaf);
    assert Pieces(Element(children + [leaf])) == Pieces(Element(children)) + Pieces(leaf);
    if init != [] {
      ConcatAssociates(RootPieces(init) + [Text("\n")], Pieces(Element(children)), Pieces(leaf));
    }
  }

  lemma ParagraphAppended(root: seq<Node>)
    requires root != []
    ensures RootPieces(root + [Element([])]) == RootPieces(root) + [Text("\n")]
  {
    assert (root + [Element([])])[..|root + [Element([])]| - 1] == root;
  }

  class Editor {
    var root: seq<Node>

    constructor ()
      ensures root == []
    {
      root := [];
    }

    /** What serialising the tree would give. */
    ghost function Contents(): (r: seq<Block>)
      reads this
    {
      AppendedAll([], RootPieces(root))
    }

    /** paragraph.append of a leaf; the current paragraph is the last child of the root. */
    method AppendLeaf(leaf: Node)
      requires ArePlainParagraphs(root) && IsPlainLeaf(leaf)
      modifies this
      ensures ArePlainParagraphs(root)
      ensures Contents() == AppendedAll(old(Contents()), Pieces(leaf))
    {
      hide Appended, IsPlainLeaf;
      var init, paragraph := root[..|root| - 1], root[|root| - 1];
      assert root == init + [Element(paragraph.children)];
      LeafAppended(init, paragraph.children, leaf);
      AppendedInTwo([], RootPieces(root), Pieces(leaf));
      root := init + [Element(paragraph.children + [leaf])];
    }

    method AppendParagraph()
      requires ArePlainParagraphs(root)
      modifies this
      ensures ArePlainParagraphs(root)
      ensures Contents() == Appended(old(Contents()), Text("\n"))
    {
      hide Appended, IsPlainLeaf;
      ParagraphAppended(root);
      AppendedInTwo([], RootPieces(root), [Text("\n")]);
      assert [Text("\n")][..0] == [];
      root := root + [Element([])];
    }

    method AppendText(text: string)
      requires ArePlainParagraphs(root)
      modifies this
      ensures ArePlainParagraphs(root)
      ensures Contents() == Appended(old(Contents()), Text(Normalize(text)))
    {
      hide Appended, IsPlainLeaf, ArePlainParagraphs, Normalize;
      ghost var before := Contents();
      var lines := Lines(Normalize(text));
      NothingAppended(before);
      for index := 0 to |lines|
        invariant ArePlainParagraphs(root)
        invariant Contents() == Appended(before, Text(JoinLines(lines[..index])))
      {
        ghost var joined := JoinLines(lines[..index]);
        if index > 0 {
          AppendParagraph();
          TextInTwo(before, joined, "\n");
          assert lines[..index + 1][..index] == lines[..index];
        }
        ghost var broken := if index > 0 then joined + "\n" else joined;
        assert Contents() == Appended(before, Text(broken));
        if lines[index] != "" {
          LinesAreParts(Normalize(text), lines[index]);
          assert IsPlainLeaf(TextNode(lines[index])) by {
            LineIsPlain(lines[index]);
          }
          AppendLeaf(TextNode(lines[index]));
          OneAppended(Appended(before, Text(broken)), Text(lines[index]));
        } else {
          NothingAppended(Appended(before, Text(broken)));
        }
        TextInTwo(before, broken, lines[index]);
        assert JoinLines(lines[..index + 1]) == broken + lines[index];
      }
      assert lines[..|lines|] == lines;
      SplitThenJoin(Normalize(text));
    }

    /** $setDocument. */
    method SetDocument(blocks: seq<Block>)
      modifies this
      ensures ArePlainParagraphs(root) && Contents() == NormalForm(blocks)
    {
      hide Appended, NormalForm, AppendedAll, Normalize;
      NoBlocks();
      root := [Element([])];
      for i := 0 to |blocks|
        invariant ArePlainParagraphs(root) && Contents() == NormalForm(blocks[..i])
      {
        assert blocks[..i + 1][..i] == blocks[..i];
        NormalFormStep(blocks[..i + 1]);
        match blocks[i] {
          case Mention(userId, name) =>
            AppendLeaf(MentionNode(userId, name));
            OneAppended(NormalForm(blocks[..i]), blocks[i]);
          case Emote(token, item) =>
            AppendLeaf(EmoteNode(token, item));
            OneAppended(NormalForm(blocks[..i]), blocks[i]);
          case Text(text) =>
            AppendText(text);
        }
      }
      assert blocks[..|blocks|] == blocks;
    }

    /** $serializeDocument. */
    method Serialize() returns (doc: Document)
      ensures doc.blocks == Contents() && doc.source == Source(doc.blocks)
    {
      var s := new Serializer();
      for index := 0 to |root|
        invariant fresh(s)
        invariant s.Contents() == AppendedAll([],
          RootPieces(root[..index]) + if 0 < index < |root| then [Text("\n")] else [])
      {
        hide Appended, Pieces;
        ghost var before := RootPieces(root[..index]) + if 0 < index < |root| then [Text("\n")] else [];
        s.Visit(root[index]);
        AppendedInTwo([], before, Pieces(root[index]));
        assert root[..index + 1][..index] == root[..index];
        assert RootPieces(root[..index + 1]) == before + Pieces(root[index]);
        if index < |root| - 1 {
          s.AddText("\n");
          AppendedInTwo([], RootPieces(root[..index + 1]), [Text("\n")]);
          OneAppended(AppendedAll([], RootPieces(root[..index + 1])), Text("\n"));
        } else {
          assert RootPieces(root[..index + 1]) + [] == RootPieces(root[..index + 1]);
        }
      }
      assert root[..|root|] == root && RootPieces(root) + [] == RootPieces(root);
      s.FlushText();
      doc := Document(Source(s.blocks), s.blocks);
    }
  }

  lemma NoBlocks()
    ensures NormalForm([]) == [] && AppendedAll([], RootPieces([Element([])])) == []
  {
  }

  lemma LineIsPlain(line: string)
    requires line != "" && '\n' !in line && '\r' !in line
    ensures IsPlainLeaf(TextNode(line))
  {
  }

  lemma NothingAppended(blocks: seq<Block>)
    ensures Appended(blocks, Text("")) == blocks
  {
  }

  lemma OneAppended(blocks: seq<Block>, b: Block)
    ensures AppendedAll(blocks, [b]) == Appended(blocks, b)
  {
    assert [b][..0] == [];
  }

  /** The variables $serializeDocument and its closures share. */
  class Serializer {
    var blocks: seq<Block>
    var text: string

    constructor ()
      ensures blocks == [] && text == ""
    {
      blocks, text := [], "";
    }

    ghost function Contents(): (r: seq<Block>)
      reads this
    {
      Appended(blocks, Text(text))
    }

    method AddText(s: string)
      modifies this
      ensures Contents() == Appended(old(Contents()), Text(s))
    {
      TextInTwo(blocks, text, s);
      text := text + s;
    }

    method FlushText()
      modifies this
      ensures text == "" && blocks == old(Contents()) && Contents() == old(Contents())
    {
      if text == "" {
        return;
      }
      if |blocks| > 0 && blocks[|blocks| - 1].Text? {
        blocks := blocks[|blocks| - 1 := Text(blocks[|blocks| - 1].text + text)];
      } else {
        blocks := blocks + [Text(text)];
      }
      text := "";
    }

    method PushToken(b: Block)
      requires !b.Text?
      modifies this
      ensures Contents() == Appended(old(Contents()), b)
    {
      FlushText();
      blocks := blocks + [b];
    }

    method Visit(node: Node)
      modifies this
      decreases node
      ensures Contents() == AppendedAll(old(Contents()), Pieces(node))
    {
      hide Appended;
      match node {
        case TextNode(content) =>
          OneAppended(Contents(), Text(content));
          AddText(content);
        case LineBreak =>
          OneAppended(Contents(), Text("\n"));
          AddText("\n");
        case MentionNode(userId, name) =>
          OneAppended(Contents(), Mention(userId, name));
          PushToken(Mention(userId, name));
        case EmoteNode(token, item) =>
          OneAppended(Contents(), Emote(token, item));
          PushToken(Emote(token, item));
        case Element(children) =>
          for i := 0 to |children|
            invariant Contents() == AppendedAll(old(Contents()), AllPieces(children[..i]))
          {
            assert children[..i + 1][..i] == children[..i];
            AppendedInTwo(old(Contents()), AllPieces(children[..i]), Pieces(children[i]));
            Visit(children[i]);
          }
          assert children[..|children|] == children;
      }
    }
  }

  /** Loading blocks and reading them back gives their normal form, and its source. */
  method RoundTrip(blocks: seq<Block>) returns (doc: Document)
    ensures doc.blocks == NormalForm(blocks) && doc.source == Source(Map(blocks, Normalized))
  {
    var editor := new Editor();
    editor.SetDocument(blocks);
    doc := editor.Serialize();
    NormalFormKeepsContent(blocks);
  }

  /** A second round trip changes nothing. */
  method TwoRoundTrips(blocks: seq<Block>) returns (first: Document, second: Document)
    ensures second == first && first.blocks == NormalForm(blocks)
  {
    first := RoundTrip(blocks);
    NormalFormIsNormal(blocks);
    NormalFormsAreFixed(first.blocks);
    second := RoundTrip(first.blocks);
    NormalFormKeepsContent(blocks);
    NormalFormKeepsContent(first.blocks);
  }
}
