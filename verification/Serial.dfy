/** The binary cache format (src/ast-serial.cpp).

Everything but the source text is a run of little-endian 32-bit words, the two 16-bit node types sharing one.
`DecodeExact` characterises acceptance: a byte string decodes to an AST with source text exactly when it starts
with that AST's own serialisation. Round trip, canonicity and rejection of truncated input follow from it.
*/
module Serial {
  import opened Ast
  import opened Options

  const MAGIC: U32 := 0x4153_5443
  const FORMAT_VERSION: U32 := 1
  const HEADER_SIZE := 32
  const MAX_SOURCE := 512 * 1024 * 1024
  const MAX_STORED_NODES := 10_000_000
  const SERIAL_INVALID_ID: U32 := 0xFFFF_FFFF

  /** What a cached AST consists of; without text it is the invalid AST. */
  datatype FileAst = FileAst(language: U32, filepathHash: U32, collisions: U32, text: Option<Text>, nodes: seq<Node>)

  const INVALID_AST := FileAst(0, 0, 0, None, [])

  // ---- Words ----------------------------------------------------------------

  /** Low byte first. */
  function Le16(v: U16): (b: seq<Byte>)
    ensures |b| == 2
  {
    [v % 0x100, v / 0x100]
  }

  function Le32(v: U32): (b: seq<Byte>)
    ensures |b| == 4
  {
    [v % 0x100, v / 0x100 % 0x100, v / 0x100 / 0x100 % 0x100, v / 0x100 / 0x100 / 0x100]
  }

  function Le64(v: U64): (b: seq<Byte>)
    ensures |b| == 8
  {
    Le32(v % 0x1_0000_0000) + Le32(v / 0x1_0000_0000)
  }

  function Join(low: nat, high: nat): nat {
    low + 0x100 * high
  }

  lemma JoinSplit(low: Byte, high: nat)
    ensures Join(low, high) % 0x100 == low && Join(low, high) / 0x100 == high
  {
  }

  lemma SplitJoin(v: nat)
    ensures Join(v % 0x100, v / 0x100) == v
  {
  }

  function U16At(data: seq<Byte>, pos: nat): U16
    requires pos + 2 <= |data|
  {
    Join(data[pos], data[pos + 1])
  }

  function U32At(data: seq<Byte>, pos: nat): U32
    requires pos + 4 <= |data|
  {
    Join(data[pos], Join(data[pos + 1], Join(data[pos + 2], data[pos + 3])))
  }

  lemma WordRead(a: Byte, b: Byte, c: Byte, d: Byte)
    ensures Join(a, Join(b, Join(c, d))) < 0x1_0000_0000
    ensures Le32(Join(a, Join(b, Join(c, d)))) == [a, b, c, d]
  {
    JoinSplit(a, Join(b, Join(c, d)));
    JoinSplit(b, Join(c, d));
    JoinSplit(c, d);
  }

  lemma WordWritten(v: U32)
    ensures var b := Le32(v); Join(b[0], Join(b[1], Join(b[2], b[3]))) == v
  {
    SplitJoin(v);
    SplitJoin(v / 0x100);
    SplitJoin(v / 0x100 / 0x100);
  }

  /** Reading a word and writing it are inverse, both ways. */
  lemma WordExact(data: seq<Byte>, pos: nat, v: U32)
    requires pos + 4 <= |data|
    ensures U32At(data, pos) == v <==> data[pos..pos + 4] == Le32(v)
  {
    var b := data[pos..pos + 4];
    assert b == [data[pos], data[pos + 1], data[pos + 2], data[pos + 3]];
    WordRead(data[pos], data[pos + 1], data[pos + 2], data[pos + 3]);
    WordWritten(v);
  }

  function Pair(low: U16, high: U16): U32 {
    low + 0x1_0000 * high as int
  }

  lemma PairSplit(low: U16, high: U16)
    ensures Pair(low, high) % 0x1_0000 == low && Pair(low, high) / 0x1_0000 == high
  {
  }

  lemma PairLow(low: U16, high: U16)
    ensures Pair(low, high) % 0x100 == low % 0x100
    ensures Pair(low, high) / 0x100 == low / 0x100 + 0x100 * high
  {
  }

  /** Two 16-bit fields in a row are one word. */
  lemma PairBytes(low: U16, high: U16)
    ensures Le16(low) + Le16(high) == Le32(Pair(low, high))
  {
    PairLow(low, high);
    JoinSplit(low / 0x100, high);
    var v := Pair(low, high);
    assert v / 0x100 == Join(low / 0x100, high);
    assert v / 0x100 / 0x100 == high;
  }

  lemma PairAt(data: seq<Byte>, pos: nat)
    requires pos + 4 <= |data|
    ensures U32At(data, pos) == Pair(U16At(data, pos), U16At(data, pos + 2))
  {
  }

  lemma SplitEqual<T>(a: seq<T>, b: seq<T>, c: seq<T>, d: seq<T>)
    requires |a| == |c|
    ensures a + b == c + d <==> a == c && b == d
  {
    assert (a + b)[..|a|] == a && (a + b)[|a|..] == b;
    assert (c + d)[..|c|] == c && (c + d)[|c|..] == d;
  }

  // Runs of words are stated over any word coding, so that their proofs do not see its arithmetic.

  function Encode(enc: U32 -> seq<Byte>, words: seq<U32>): (b: seq<Byte>)
    requires forall v :: |enc(v)| == 4
    ensures |b| == 4 * |words|
  {
    if words == [] then [] else enc(words[0]) + Encode(enc, words[1..])
  }

  function DecodeRun(dec: nat -> U32, pos: nat, count: nat): (words: seq<U32>)
    ensures |words| == count
    decreases count
  {
    if count == 0 then [] else [dec(pos)] + DecodeRun(dec, pos + 4, count - 1)
  }

  /** Coding one word is exact at every position of `data`. */
  ghost predicate ExactCoding(enc: U32 -> seq<Byte>, dec: nat -> U32, data: seq<Byte>) {
    && (forall v :: |enc(v)| == 4)
    && (forall p: nat, v :: p + 4 <= |data| ==> (dec(p) == v <==> data[p..p + 4] == enc(v)))
  }

  /** A non-empty stretch equals `first + later` exactly when its two parts do. */
  lemma StretchSplit(data: seq<Byte>, pos: nat, end: nat, first: seq<Byte>, later: seq<Byte>)
    requires pos + |first| <= end <= |data|
    ensures data[pos..end] == first + later <==> data[pos..pos + |first|] == first && data[pos + |first|..end] == later
  {
    var head, tail := data[pos..pos + |first|], data[pos + |first|..end];
    assert data[pos..end] == head + tail;
    SplitEqual(head, tail, first, later);
  }

  lemma {:induction false} RunExact(enc: U32 -> seq<Byte>, dec: nat -> U32, data: seq<Byte>, pos: nat, words: seq<U32>)
    requires ExactCoding(enc, dec, data) && pos + 4 * |words| <= |data|
    ensures DecodeRun(dec, pos, |words|) == words <==> data[pos..pos + 4 * |words|] == Encode(enc, words)
    decreases |words|
  {
    if words != [] {
      var w, rest, end := words[0], words[1..], pos + 4 * |words|;
      assert end == (pos + 4) + 4 * |rest| && words == [w] + rest;
      assert dec(pos) == w <==> data[pos..pos + 4] == enc(w);
      RunExact(enc, dec, data, pos + 4, rest);
      StretchSplit(data, pos, end, enc(w), Encode(enc, rest));
      SplitEqual([dec(pos)], DecodeRun(dec, pos + 4, |rest|), [w], rest);
    }
  }

  lemma {:induction false} RunAt(dec: nat -> U32, pos: nat, count: nat, i: nat)
    requires i < count
    ensures DecodeRun(dec, pos, count)[i] == dec(pos + 4 * i)
    decreases i
  {
    if i > 0 {
      RunAt(dec, pos + 4, count - 1, i - 1);
    }
  }

  lemma {:induction false} RunAfter(dec: nat -> U32, pos: nat, count: nat, k: nat)
    requires k <= count
    ensures DecodeRun(dec, pos, count)[k..] == DecodeRun(dec, pos + 4 * k, count - k)
    decreases k
  {
    if k > 0 {
      RunAfter(dec, pos + 4, count - 1, k - 1);
      assert DecodeRun(dec, pos, count)[k..] == DecodeRun(dec, pos + 4, count - 1)[k - 1..];
    }
  }

  function WordBytes(words: seq<U32>): (b: seq<Byte>)
    ensures |b| == 4 * |words|
  {
    Encode(Le32, words)
  }

  function WordReader(data: seq<Byte>): nat -> U32 {
    (pos: nat) => if pos + 4 <= |data| then U32At(data, pos) else 0
  }

  function WordsAt(data: seq<Byte>, pos: nat, count: nat): (words: seq<U32>)
    requires pos + 4 * count <= |data|
    ensures |words| == count
  {
    DecodeRun(WordReader(data), pos, count)
  }

  lemma WordAt(data: seq<Byte>, pos: nat, count: nat, i: nat)
    requires pos + 4 * count <= |data| && i < count
    ensures WordsAt(data, pos, count)[i] == U32At(data, pos + 4 * i)
  {
    RunAt(WordReader(data), pos, count, i);
  }

  /** The words from `k` on are those that stand 4 * k bytes further. */
  lemma WordsAfter(data: seq<Byte>, pos: nat, count: nat, k: nat)
    requires pos + 4 * count <= |data| && k <= count
    ensures WordsAt(data, pos, count)[k..] == WordsAt(data, pos + 4 * k, count - k)
  {
    RunAfter(WordReader(data), pos, count, k);
  }

  /** The words at `pos` are `words` exactly when their bytes stand there. */
  lemma WordsExact(data: seq<Byte>, pos: nat, words: seq<U32>)
    requires pos + 4 * |words| <= |data|
    ensures WordsAt(data, pos, |words|) == words <==> data[pos..pos + 4 * |words|] == WordBytes(words)
  {
    var dec := WordReader(data);
    forall p: nat, v | p + 4 <= |data| ensures dec(p) == v <==> data[p..p + 4] == Le32(v) {
      WordExact(data, p, v);
    }
    RunExact(Le32, dec, data, pos, words);
  }

  // ---- Nodes ----------------------------------------------------------------

  predicate Encodable(id: nat) {
    id == INVALID_ID || id < SERIAL_INVALID_ID
  }

  /** The source asserts that every id is an index below 0xFFFFFFFF or invalid. */
  function EncodeId(id: nat): U32
    requires Encodable(id)
  {
    if id == INVALID_ID then SERIAL_INVALID_ID else id
  }

  function DecodeId(raw: U32): (id: nat)
    ensures Encodable(id) && EncodeId(id) == raw
  {
    if raw == SERIAL_INVALID_ID then INVALID_ID else raw
  }

  lemma DecodeEncoded(id: nat)
    requires Encodable(id)
    ensures DecodeId(EncodeId(id)) == id
  {
  }

  predicate AllEncodable(ids: seq<nat>) {
    forall i :: 0 <= i < |ids| ==> Encodable(ids[i])
  }

  function EncodeIds(ids: seq<nat>): (r: seq<U32>)
    requires AllEncodable(ids)
    ensures |r| == |ids|
  {
    seq(|ids|, i requires 0 <= i < |ids| => EncodeId(ids[i]))
  }

  function DecodeIds(raw: seq<U32>): (r: seq<nat>)
    ensures |r| == |raw| && AllEncodable(r) && EncodeIds(r) == raw
  {
    seq(|raw|, i requires 0 <= i < |raw| => DecodeId(raw[i]))
  }

  predicate NodeEncodable(n: Node) {
    Encodable(n.id) && Encodable(n.parent) && AllEncodable(n.children) && |n.children| < 0x1_0000_0000
  }

  function NodeWords(n: Node): (w: seq<U32>)
    requires NodeEncodable(n)
    ensures |w| == 12 + |n.children|
  {
    [EncodeId(n.id), EncodeId(n.parent), n.hash, n.flags, Pair(n.nodeType, n.grammarType), n.startByte, n.endByte,
     n.start.row, n.start.column, n.end.row, n.end.column, |n.children|] + EncodeIds(n.children)
  }

  /** The node that `words` describe, its text taken from `source`. */
  function NodeFrom(words: seq<U32>, source: Text): Node
    requires |words| >= 12
  {
    Node(DecodeId(words[0]), DecodeId(words[1]), words[2], words[3], words[4] % 0x1_0000, words[4] / 0x1_0000,
         Slice(source, words[5], words[6]), words[5], words[6],
         Point(words[7], words[8]), Point(words[9], words[10]), DecodeIds(words[12..]))
  }

  lemma NodeFromWords(words: seq<U32>, source: Text)
    requires |words| >= 12 && words[11] == |words| - 12
    ensures NodeEncodable(NodeFrom(words, source)) && NodeWords(NodeFrom(words, source)) == words
  {
    var n := NodeFrom(words, source);
    assert EncodeIds(n.children) == words[12..];
    assert NodeWords(n)[..12] == words[..12];
    assert words == words[..12] + words[12..];
    assert NodeWords(n) == NodeWords(n)[..12] + EncodeIds(n.children);
  }

  lemma WordsOfNode(n: Node, source: Text)
    requires NodeEncodable(n) && n.text == Slice(source, n.startByte, n.endByte)
    ensures NodeFrom(NodeWords(n), source) == n
  {
    DecodeEncoded(n.id);
    DecodeEncoded(n.parent);
    assert NodeWords(n)[12..] == EncodeIds(n.children);
    forall i | 0 <= i < |n.children| ensures DecodeIds(EncodeIds(n.children))[i] == n.children[i] {
      DecodeEncoded(n.children[i]);
    }
    assert DecodeIds(EncodeIds(n.children)) == n.children;
  }

  /** The node at `pos`, unless the data ends inside it or it has more children than there are nodes. */
  function ReadNode(data: seq<Byte>, pos: nat, nodeCount: U32, source: Text): (r: Option<Node>)
    ensures r.Some? ==> NodeEncodable(r.value)
  {
    if pos + 48 > |data| then None
    else
      var childCount := U32At(data, pos + 44);
      if childCount > nodeCount || pos + 48 + 4 * childCount > |data| then None
      else
        WordAt(data, pos, 12 + childCount, 11);
        NodeFromWords(WordsAt(data, pos, 12 + childCount), source);
        Some(NodeFrom(WordsAt(data, pos, 12 + childCount), source))
  }

  predicate NodeStorable(n: Node, nodeCount: nat, source: Text) {
    NodeEncodable(n) && |n.children| <= nodeCount && n.text == Slice(source, n.startByte, n.endByte)
  }

  function NodeSize(n: Node): nat {
    48 + 4 * |n.children|
  }

  /** The data at `pos` starts with `part`. */
  predicate StartsWith(data: seq<Byte>, pos: nat, part: seq<Byte>) {
    pos + |part| <= |data| && data[pos..pos + |part|] == part
  }

  /** A storable node's own bytes stand at `pos`. */
  predicate NodeStands(data: seq<Byte>, pos: nat, nodeCount: nat, source: Text, n: Node) {
    NodeStorable(n, nodeCount, source) && StartsWith(data, pos, WordBytes(NodeWords(n)))
  }

  lemma ReadNodeSound(data: seq<Byte>, pos: nat, nodeCount: U32, source: Text)
    requires ReadNode(data, pos, nodeCount, source).Some?
    ensures var n := ReadNode(data, pos, nodeCount, source).value;
      NodeStands(data, pos, nodeCount, source, n) && pos + NodeSize(n) <= |data|
  {
    var words := WordsAt(data, pos, 12 + U32At(data, pos + 44));
    WordAt(data, pos, |words|, 11);
    NodeFromWords(words, source);
    WordsExact(data, pos, words);
  }

  lemma ReadNodeComplete(data: seq<Byte>, pos: nat, nodeCount: U32, source: Text, n: Node)
    requires NodeStands(data, pos, nodeCount, source, n)
    ensures ReadNode(data, pos, nodeCount, source) == Some(n)
  {
    var words := NodeWords(n);
    WordsExact(data, pos, words);
    WordAt(data, pos, |words|, 11);
    WordsOfNode(n, source);
  }

  /** A node is read exactly when its own bytes stand there. */
  lemma ReadNodeExact(data: seq<Byte>, pos: nat, nodeCount: U32, source: Text, n: Node)
    ensures ReadNode(data, pos, nodeCount, source) == Some(n) <==> NodeStands(data, pos, nodeCount, source, n)
    ensures ReadNode(data, pos, nodeCount, source) == Some(n) ==> pos + NodeSize(n) <= |data|
  {
    if ReadNode(data, pos, nodeCount, source).Some? {
      ReadNodeSound(data, pos, nodeCount, source);
    }
    if NodeStands(data, pos, nodeCount, source, n) {
      ReadNodeComplete(data, pos, nodeCount, source, n);
    }
  }

  function NodesBytes(nodes: seq<Node>): seq<Byte>
    requires forall i :: 0 <= i < |nodes| ==> NodeEncodable(nodes[i])
  {
    if nodes == [] then [] else WordBytes(NodeWords(nodes[0])) + NodesBytes(nodes[1..])
  }

  function NodesSize(nodes: seq<Node>): nat {
    if nodes == [] then 0 else NodeSize(nodes[0]) + NodesSize(nodes[1..])
  }

  lemma {:induction false} NodesBytesSize(nodes: seq<Node>)
    requires forall i :: 0 <= i < |nodes| ==> NodeEncodable(nodes[i])
    ensures |NodesBytes(nodes)| == NodesSize(nodes)
  {
    if nodes != [] {
      NodesBytesSize(nodes[1..]);
    }
  }

  /** The next `k` nodes from `pos` on, one after the other. */
  function ReadMany(read: nat -> Option<Node>, pos: nat, k: nat): (r: Option<seq<Node>>)
    ensures r.Some? ==> |r.value| == k
    decreases k
  {
    if k == 0 then Some([])
    else
      match read(pos)
      case None => None
      case Some(n) =>
        match ReadMany(read, pos + NodeSize(n), k - 1)
        case None => None
        case Some(rest) => Some([n] + rest)
  }

  function NodeReader(data: seq<Byte>, nodeCount: U32, source: Text): nat -> Option<Node> {
    (pos: nat) => ReadNode(data, pos, nodeCount, source)
  }

  function ReadNodes(data: seq<Byte>, pos: nat, k: nat, nodeCount: U32, source: Text): (r: Option<seq<Node>>)
    ensures r.Some? ==> |r.value| == k
  {
    ReadMany(NodeReader(data, nodeCount, source), pos, k)
  }

  /** The nodes stand one after the other from `pos` on. */
  predicate Chained(stands: (nat, Node) -> bool, pos: nat, nodes: seq<Node>)
    decreases |nodes|
  {
    nodes == [] || (stands(pos, nodes[0]) && Chained(stands, pos + NodeSize(nodes[0]), nodes[1..]))
  }

  lemma {:induction false} ReadManyExact(read: nat -> Option<Node>, stands: (nat, Node) -> bool, pos: nat, nodes: seq<Node>)
    requires forall p: nat, n :: stands(p, n) <==> read(p) == Some(n)
    ensures ReadMany(read, pos, |nodes|) == Some(nodes) <==> Chained(stands, pos, nodes)
    decreases |nodes|
  {
    if nodes != [] {
      var n, rest := nodes[0], nodes[1..];
      assert nodes == [n] + rest;
      assert stands(pos, n) <==> read(pos) == Some(n);
      ReadManyExact(read, stands, pos + NodeSize(n), rest);
      if read(pos) == Some(n) && ReadMany(read, pos, |nodes|) == Some(nodes) {
        var got := ReadMany(read, pos + NodeSize(n), |rest|).value;
        assert ([n] + got)[1..] == got;
      }
    }
  }

  predicate NodesStorable(nodes: seq<Node>, nodeCount: nat, source: Text) {
    forall i :: 0 <= i < |nodes| ==> NodeStorable(nodes[i], nodeCount, source)
  }

  lemma StartsWithSplit(data: seq<Byte>, pos: nat, a: seq<Byte>, b: seq<Byte>)
    ensures StartsWith(data, pos, a + b) <==> StartsWith(data, pos, a) && StartsWith(data, pos + |a|, b)
  {
    if pos + |a| + |b| <= |data| {
      assert data[pos..pos + |a + b|] == data[pos..pos + |a|] + data[pos + |a|..pos + |a| + |b|];
      SplitEqual(data[pos..pos + |a|], data[pos + |a|..pos + |a| + |b|], a, b);
    }
  }

  lemma {:induction false} NodesCons(n: Node, rest: seq<Node>, nodeCount: nat, source: Text)
    ensures NodesStorable([n] + rest, nodeCount, source) <==> NodeStorable(n, nodeCount, source) && NodesStorable(rest, nodeCount, source)
    ensures NodesStorable([n] + rest, nodeCount, source) ==> NodesBytes([n] + rest) == WordBytes(NodeWords(n)) + NodesBytes(rest)
  {
    var nodes := [n] + rest;
    assert nodes[1..] == rest;
    assert nodes[0] == n && forall i :: 0 <= i < |rest| ==> nodes[i + 1] == rest[i];
    assert forall i :: 0 < i < |nodes| ==> nodes[i] == rest[i - 1];
  }

  /** Storable nodes' bytes stand at `pos`, one after the other. */
  predicate NodesStand(data: seq<Byte>, pos: nat, nodeCount: nat, source: Text, nodes: seq<Node>) {
    NodesStorable(nodes, nodeCount, source) && StartsWith(data, pos, NodesBytes(nodes))
  }

  lemma StandJoin(data: seq<Byte>, pos: nat, nodeCount: nat, source: Text, n: Node, rest: seq<Node>)
    ensures NodesStand(data, pos, nodeCount, source, [n] + rest) <==>
      NodeStands(data, pos, nodeCount, source, n) && NodesStand(data, pos + NodeSize(n), nodeCount, source, rest)
  {
    NodesCons(n, rest, nodeCount, source);
    if NodeStorable(n, nodeCount, source) && NodesStorable(rest, nodeCount, source) {
      var a, b := WordBytes(NodeWords(n)), NodesBytes(rest);
      assert |a| == NodeSize(n) && NodesBytes([n] + rest) == a + b;
      StartsWithSplit(data, pos, a, b);
    }
  }

  function NodeStander(data: seq<Byte>, nodeCount: nat, source: Text): (nat, Node) -> bool {
    (pos: nat, n: Node) => NodeStands(data, pos, nodeCount, source, n)
  }

  lemma NoNodesStand(data: seq<Byte>, pos: nat, nodeCount: nat, source: Text)
    requires pos <= |data|
    ensures NodesStand(data, pos, nodeCount, source, [])
  {
  }

  lemma {:induction false} ChainedIsStanding(data: seq<Byte>, pos: nat, nodeCount: nat, source: Text, nodes: seq<Node>)
    requires pos <= |data|
    ensures Chained(NodeStander(data, nodeCount, source), pos, nodes) <==> NodesStand(data, pos, nodeCount, source, nodes)
    decreases |nodes|
  {
    if nodes == [] {
      NoNodesStand(data, pos, nodeCount, source);
    } else {
      var n, rest := nodes[0], nodes[1..];
      assert nodes == [n] + rest;
      StandJoin(data, pos, nodeCount, source, n, rest);
      if NodeStands(data, pos, nodeCount, source, n) {
        StandingFits(data, pos, nodeCount, source, n);
        ChainedIsStanding(data, pos + NodeSize(n), nodeCount, source, rest);
      }
    }
  }

  lemma StandingFits(data: seq<Byte>, pos: nat, nodeCount: nat, source: Text, n: Node)
    requires NodeStands(data, pos, nodeCount, source, n)
    ensures pos + NodeSize(n) <= |data|
  {
  }

  /** A run of nodes is read exactly when they are storable and their bytes stand there. */
  lemma ReadNodesExact(data: seq<Byte>, pos: nat, nodeCount: U32, source: Text, nodes: seq<Node>)
    requires pos <= |data|
    ensures ReadNodes(data, pos, |nodes|, nodeCount, source) == Some(nodes) <==> NodesStand(data, pos, nodeCount, source, nodes)
  {
    var read, stands := NodeReader(data, nodeCount, source), NodeStander(data, nodeCount, source);
    forall p: nat, n ensures stands(p, n) <==> read(p) == Some(n) {
      ReadNodeExact(data, p, nodeCount, source, n);
    }
    ReadManyExact(read, stands, pos, nodes);
    ChainedIsStanding(data, pos, nodeCount, source, nodes);
  }

  // ---- Whole files ----------------------------------------------------------

  predicate AllNodesEncodable(nodes: seq<Node>) {
    forall i :: 0 <= i < |nodes| ==> NodeEncodable(nodes[i])
  }

  /** What ast_serialize demands of its argument: every id is an index or invalid, and the counts fit their fields. */
  predicate Serializable(f: FileAst) {
    AllNodesEncodable(f.nodes) && |f.nodes| < 0x1_0000_0000 && (f.text.Some? ==> |f.text.value| < 0x8000_0000_0000_0000)
  }

  function HeaderWords(f: FileAst): (w: seq<U32>)
    requires Serializable(f) && f.text.Some?
    ensures |w| == 8
  {
    var size: U64 := |f.text.value|;
    [MAGIC, FORMAT_VERSION, f.language, |f.nodes|, size % 0x1_0000_0000, size / 0x1_0000_0000, f.filepathHash, f.collisions]
  }

  /** The serialised form: nothing for the invalid AST, else header, source and nodes. */
  function Bytes(f: FileAst): seq<Byte>
    requires Serializable(f)
  {
    if f.text.None? then [] else WordBytes(HeaderWords(f)) + f.text.value + NodesBytes(f.nodes)
  }

  /** What the format can hold and give back. */
  predicate Storable(f: FileAst) {
    && f.text.Some? && 0 < |f.text.value| <= MAX_SOURCE
    && |f.nodes| <= MAX_STORED_NODES
    && NodesStorable(f.nodes, |f.nodes|, f.text.value)
  }

  lemma StorableIsSerializable(f: FileAst)
    requires Storable(f)
    ensures Serializable(f)
  {
    forall i | 0 <= i < |f.nodes| ensures NodeEncodable(f.nodes[i]) {
      assert NodeStorable(f.nodes[i], |f.nodes|, f.text.value);
    }
  }

  datatype Decoded = Decoded(ast: FileAst, consumed: nat)

  predicate GoodHeader(h: seq<U32>)
    requires |h| == 8
  {
    h[0] == MAGIC && h[1] == FORMAT_VERSION && SourceSize(h) <= MAX_SOURCE && h[3] <= MAX_STORED_NODES
  }

  function SourceSize(h: seq<U32>): nat
    requires |h| == 8
  {
    h[4] + 0x1_0000_0000 * h[5] as int
  }

  /** Source and nodes after a header with words `h`. An empty source leaves the text buffer null, so such an AST is without text. */
  function DecodeBody(data: seq<Byte>, h: seq<U32>): Option<Decoded>
    requires |h| == 8
  {
    var start := HEADER_SIZE + SourceSize(h);
    if start > |data| then None
    else
      var source := data[HEADER_SIZE..start];
      match ReadNodes(data, start, h[3], h[3], source)
      case None => None
      case Some(nodes) =>
        Some(Decoded(FileAst(h[2], h[6], h[7], if source == [] then None else Some(source), nodes), start + NodesSize(nodes)))
  }

  /** The AST that `data` starts with. */
  function Decode(data: seq<Byte>): Option<Decoded> {
    if |data| < HEADER_SIZE then None
    else
      var h := WordsAt(data, 0, 8);
      if GoodHeader(h) then DecodeBody(data, h) else None
  }

  function Deserialized(data: seq<Byte>): FileAst {
    match Decode(data) case None => INVALID_AST case Some(d) => d.ast
  }

  // ---- What decoding accepts ------------------------------------------------

  lemma SizeWords(size: U64)
    ensures size % 0x1_0000_0000 + 0x1_0000_0000 * (size / 0x1_0000_0000) == size
  {
  }

  lemma SizeFromWords(low: U32, high: U32)
    ensures (low + 0x1_0000_0000 * high as int) % 0x1_0000_0000 == low
    ensures (low + 0x1_0000_0000 * high as int) / 0x1_0000_0000 == high
  {
  }

  /** The serialised form of `f` without its header. */
  function BodyBytes(f: FileAst): seq<Byte>
    requires Serializable(f) && f.text.Some?
  {
    f.text.value + NodesBytes(f.nodes)
  }

  /** How many bytes the format takes for `f`. */
  function StoredSize(f: FileAst): nat
    requires f.text.Some?
  {
    HEADER_SIZE + |f.text.value| + NodesSize(f.nodes)
  }

  lemma SerializedLength(f: FileAst)
    requires Serializable(f) && f.text.Some?
    ensures |Bytes(f)| == StoredSize(f)
  {
    NodesBytesSize(f.nodes);
  }

  /** `data` starts with the serialised form of the storable AST `f`. */
  predicate Holds(data: seq<Byte>, f: FileAst) {
    Storable(f) && (StorableIsSerializable(f); StartsWith(data, 0, Bytes(f)))
  }

  lemma HoldsParts(data: seq<Byte>, f: FileAst)
    requires Storable(f)
    ensures Serializable(f)
    ensures Holds(data, f) <==>
      && StartsWith(data, 0, WordBytes(HeaderWords(f)))
      && StartsWith(data, HEADER_SIZE, f.text.value)
      && StartsWith(data, HEADER_SIZE + |f.text.value|, NodesBytes(f.nodes))
  {
    StorableIsSerializable(f);
    assert Bytes(f) == WordBytes(HeaderWords(f)) + BodyBytes(f);
    StartsWithSplit(data, 0, WordBytes(HeaderWords(f)), BodyBytes(f));
    StartsWithSplit(data, HEADER_SIZE, f.text.value, NodesBytes(f.nodes));
  }

  /** Header words `h` belong to `f`. */
  predicate HeaderOf(h: seq<U32>, f: FileAst)
    requires |h| == 8 && f.text.Some?
  {
    h[2] == f.language && h[3] == |f.nodes| && SourceSize(h) == |f.text.value| && h[6] == f.filepathHash && h[7] == f.collisions
  }

  lemma HeaderExact(h: seq<U32>, f: FileAst)
    requires |h| == 8 && Serializable(f) && f.text.Some?
    ensures HeaderWords(f) == h <==> h[0] == MAGIC && h[1] == FORMAT_VERSION && HeaderOf(h, f)
  {
    SizeWords(|f.text.value|);
    SizeFromWords(h[4], h[5]);
  }

  lemma BodyExact(data: seq<Byte>, h: seq<U32>, f: FileAst)
    requires |h| == 8 && f.text.Some? && f.text.value != [] && HeaderOf(h, f)
    ensures DecodeBody(data, h) == Some(Decoded(f, StoredSize(f))) <==>
      && StartsWith(data, HEADER_SIZE, f.text.value)
      && NodesStand(data, HEADER_SIZE + |f.text.value|, |f.nodes|, f.text.value, f.nodes)
  {
    var start := HEADER_SIZE + |f.text.value|;
    if start <= |data| {
      ReadNodesExact(data, start, h[3], data[HEADER_SIZE..start], f.nodes);
    }
  }

  lemma BodyOwnsHeader(data: seq<Byte>, h: seq<U32>)
    requires |h| == 8 && DecodeBody(data, h).Some? && DecodeBody(data, h).value.ast.text.Some?
    ensures var d := DecodeBody(data, h).value;
      d.ast.text.value != [] && HeaderOf(h, d.ast) && d.consumed == StoredSize(d.ast)
  {
  }

  /** A decoded AST with text is storable, and its own serialisation stands at the start of the data. */
  lemma DecodeSound(data: seq<Byte>)
    requires Decode(data).Some? && Decode(data).value.ast.text.Some?
    ensures Holds(data, Decode(data).value.ast)
    ensures Decode(data).value.consumed == StoredSize(Decode(data).value.ast)
  {
    var f, h := Decode(data).value.ast, WordsAt(data, 0, 8);
    BodyOwnsHeader(data, h);
    BodyExact(data, h, f);
    HoldsParts(data, f);
    HeaderExact(h, f);
    WordsExact(data, 0, h);
  }

  /** The serialisation of a storable AST decodes to it, whatever follows. */
  lemma DecodeComplete(data: seq<Byte>, f: FileAst)
    requires Holds(data, f)
    ensures Decode(data) == Some(Decoded(f, StoredSize(f)))
  {
    HoldsParts(data, f);
    var h := HeaderWords(f);
    HeaderExact(h, f);
    WordsExact(data, 0, h);
    DecodeUnfolds(data, h);
    BodyExact(data, h, f);
  }

  lemma DecodeUnfolds(data: seq<Byte>, h: seq<U32>)
    requires |h| == 8 && GoodHeader(h) && |data| >= HEADER_SIZE && WordsAt(data, 0, 8) == h
    ensures Decode(data) == DecodeBody(data, h)
  {
  }

  /** Acceptance is exact: an AST with text comes out precisely of the byte strings that start with its serialisation. */
  lemma DecodeExact(data: seq<Byte>, f: FileAst)
    requires f.text.Some?
    ensures Deserialized(data) == f <==> Holds(data, f)
  {
    if Deserialized(data) == f {
      DecodeSound(data);
    } else if Holds(data, f) {
      DecodeComplete(data, f);
      assert false;
    }
  }

  // ---- Layout ---------------------------------------------------------------

  /** The bytes from `pos` on as a number, low byte first. */
  function Number(data: seq<Byte>, pos: nat, width: nat): int
    requires pos + width <= |data|
    decreases width
  {
    if width == 0 then 0 else data[pos] as int + 0x100 * Number(data, pos + 1, width - 1)
  }

  /** The `width` bytes at `pos` are the number `v`. */
  predicate Holding(data: seq<Byte>, pos: nat, width: nat, v: int) {
    pos + width <= |data| && Number(data, pos, width) == v
  }

  predicate Word(data: seq<Byte>, pos: nat, v: nat) {
    Holding(data, pos, 4, v)
  }

  predicate IdWord(data: seq<Byte>, pos: nat, id: nat) {
    Word(data, pos, if id == INVALID_ID then 0xFFFF_FFFF else id)
  }

  /** The record of `n` at `pos`, byte for byte. */
  ghost predicate NodeLaidOut(data: seq<Byte>, pos: nat, n: Node) {
    && IdWord(data, pos, n.id) && IdWord(data, pos + 4, n.parent)
    && Word(data, pos + 8, n.hash) && Word(data, pos + 12, n.flags)
    && Holding(data, pos + 16, 2, n.nodeType) && Holding(data, pos + 18, 2, n.grammarType)
    && Word(data, pos + 20, n.startByte) && Word(data, pos + 24, n.endByte)
    && Word(data, pos + 28, n.start.row) && Word(data, pos + 32, n.start.column)
    && Word(data, pos + 36, n.end.row) && Word(data, pos + 40, n.end.column)
    && Word(data, pos + 44, |n.children|)
    && forall k :: 0 <= k < |n.children| ==> IdWord(data, pos + 48 + 4 * k, n.children[k])
  }

  /** A number of eight bytes is two words, the low one first. */
  lemma TwoWords(data: seq<Byte>, pos: nat)
    requires pos + 8 <= |data|
    ensures Number(data, pos, 8) == Number(data, pos, 4) + 0x1_0000_0000 * Number(data, pos + 4, 4)
  {
    var high := Number(data, pos + 4, 4);
    assert Number(data, pos + 3, 5) == data[pos + 3] as int + 0x100 * high;
    assert Number(data, pos + 2, 6) == data[pos + 2] as int + 0x100 * Number(data, pos + 3, 5);
    assert Number(data, pos + 1, 7) == data[pos + 1] as int + 0x100 * Number(data, pos + 2, 6);
    assert Number(data, pos + 3, 1) == data[pos + 3];
  }

  lemma WordStands(data: seq<Byte>, pos: nat, words: seq<U32>, i: nat)
    requires StartsWith(data, pos, WordBytes(words)) && i < |words|
    ensures Word(data, pos + 4 * i, words[i])
  {
    WordsExact(data, pos, words);
    WordAt(data, pos, |words|, i);
    FourBytes(data, pos + 4 * i);
  }

  lemma {:induction false} FourBytes(data: seq<Byte>, pos: nat)
    requires pos + 4 <= |data|
    ensures Number(data, pos, 4) == U32At(data, pos)
  {
    assert Number(data, pos + 3, 1) == data[pos + 3];
  }

  lemma HalvesStand(data: seq<Byte>, pos: nat, low: U16, high: U16)
    requires Word(data, pos, Pair(low, high))
    ensures Holding(data, pos, 2, low) && Holding(data, pos + 2, 2, high)
  {
    FourBytes(data, pos);
    PairAt(data, pos);
    PairSplit(low, high);
    PairSplit(U16At(data, pos), U16At(data, pos + 2));
  }

  lemma HeadStands(data: seq<Byte>, pos: nat, n: Node, words: seq<U32>)
    requires NodeEncodable(n) && words == NodeWords(n) && StartsWith(data, pos, WordBytes(words))
    ensures IdWord(data, pos, n.id) && IdWord(data, pos + 4, n.parent)
    ensures Word(data, pos + 8, n.hash) && Word(data, pos + 12, n.flags)
    ensures Word(data, pos + 16, Pair(n.nodeType, n.grammarType)) && Word(data, pos + 44, |n.children|)
  {
    WordStands(data, pos, words, 0);
    WordStands(data, pos, words, 1);
    WordStands(data, pos, words, 2);
    WordStands(data, pos, words, 3);
    WordStands(data, pos, words, 4);
    WordStands(data, pos, words, 11);
  }

  lemma SpanStands(data: seq<Byte>, pos: nat, n: Node, words: seq<U32>)
    requires NodeEncodable(n) && words == NodeWords(n) && StartsWith(data, pos, WordBytes(words))
    ensures Word(data, pos + 20, n.startByte) && Word(data, pos + 24, n.endByte)
    ensures Word(data, pos + 28, n.start.row) && Word(data, pos + 32, n.start.column)
    ensures Word(data, pos + 36, n.end.row) && Word(data, pos + 40, n.end.column)
  {
    WordStands(data, pos, words, 5);
    WordStands(data, pos, words, 6);
    WordStands(data, pos, words, 7);
    WordStands(data, pos, words, 8);
    WordStands(data, pos, words, 9);
    WordStands(data, pos, words, 10);
  }

  lemma NodeLayout(data: seq<Byte>, pos: nat, n: Node)
    requires NodeEncodable(n) && StartsWith(data, pos, WordBytes(NodeWords(n)))
    ensures NodeLaidOut(data, pos, n)
  {
    var words := NodeWords(n);
    HeadStands(data, pos, n, words);
    HalvesStand(data, pos + 16, n.nodeType, n.grammarType);
    SpanStands(data, pos, n, words);
    forall k | 0 <= k < |n.children| ensures IdWord(data, pos + 48 + 4 * k, n.children[k]) {
      WordStands(data, pos, words, 12 + k);
      assert words[12 + k] == EncodeIds(n.children)[k];
    }
  }

  lemma {:induction false} NodePlace(data: seq<Byte>, pos: nat, nodes: seq<Node>, i: nat)
    requires AllNodesEncodable(nodes) && StartsWith(data, pos, NodesBytes(nodes)) && i < |nodes|
    ensures StartsWith(data, pos + NodesSize(nodes[..i]), WordBytes(NodeWords(nodes[i])))
    decreases i
  {
    var first, rest := nodes[0], nodes[1..];
    StartsWithSplit(data, pos, WordBytes(NodeWords(first)), NodesBytes(rest));
    if i > 0 {
      NodePlace(data, pos + NodeSize(first), rest, i - 1);
      assert nodes[..i][1..] == rest[..i - 1];
    }
  }

  /** The eight words of the header; the source's size is one number of eight bytes. */
  ghost predicate HeaderLaidOut(data: seq<Byte>, f: FileAst)
    requires f.text.Some?
  {
    && Word(data, 0, MAGIC) && Word(data, 4, FORMAT_VERSION) && Word(data, 8, f.language) && Word(data, 12, |f.nodes|)
    && Holding(data, 16, 8, |f.text.value|) && Word(data, 24, f.filepathHash) && Word(data, 28, f.collisions)
  }

  lemma HeaderLayout(data: seq<Byte>, f: FileAst)
    requires Serializable(f) && f.text.Some? && StartsWith(data, 0, WordBytes(HeaderWords(f)))
    ensures HeaderLaidOut(data, f)
  {
    var h := HeaderWords(f);
    WordStands(data, 0, h, 0);
    WordStands(data, 0, h, 1);
    WordStands(data, 0, h, 2);
    WordStands(data, 0, h, 3);
    SizeStands(data, h, |f.text.value|);
    WordStands(data, 0, h, 6);
    WordStands(data, 0, h, 7);
  }

  lemma SizeStands(data: seq<Byte>, h: seq<U32>, size: U64)
    requires |h| == 8 && h[4] == size % 0x1_0000_0000 && h[5] == size / 0x1_0000_0000 && StartsWith(data, 0, WordBytes(h))
    ensures Holding(data, 16, 8, size)
  {
    WordStands(data, 0, h, 4);
    WordStands(data, 0, h, 5);
    SizeWords(size);
    TwoWords(data, 16);
  }

  /** Every node's record stands where the records before it end. */
  ghost predicate NodesLaidOut(data: seq<Byte>, start: nat, nodes: seq<Node>) {
    forall i :: 0 <= i < |nodes| ==> NodeLaidOut(data, start + NodesSize(nodes[..i]), nodes[i])
  }

  lemma {:induction false} NodesLayout(data: seq<Byte>, start: nat, nodes: seq<Node>)
    requires AllNodesEncodable(nodes) && StartsWith(data, start, NodesBytes(nodes))
    ensures NodesLaidOut(data, start, nodes)
  {
    forall i | 0 <= i < |nodes| ensures NodeLaidOut(data, start + NodesSize(nodes[..i]), nodes[i]) {
      NodePlace(data, start, nodes, i);
      NodeLayout(data, start + NodesSize(nodes[..i]), nodes[i]);
    }
  }

  /** The serialised form byte for byte: the header, the source, and the nodes' records one after the other. */
  lemma Layout(f: FileAst)
    requires Serializable(f) && f.text.Some?
    ensures var data, start := Bytes(f), 32 + |f.text.value|;
      && HeaderLaidOut(data, f) && |data| == start + NodesSize(f.nodes) && data[32..start] == f.text.value
      && NodesLaidOut(data, start, f.nodes)
  {
    SerializedLength(f);
    BytesParts(f);
    HeaderLayout(Bytes(f), f);
    NodesLayout(Bytes(f), 32 + |f.text.value|, f.nodes);
  }

  lemma BytesParts(f: FileAst)
    requires Serializable(f) && f.text.Some?
    ensures var data, start := Bytes(f), 32 + |f.text.value|;
      && |data| >= start && data[32..start] == f.text.value
      && StartsWith(data, 0, WordBytes(HeaderWords(f))) && StartsWith(data, start, NodesBytes(f.nodes))
  {
  }

  /** Round trip: an AST with text comes back from its serialisation followed by anything, exactly when the format can hold it. */
  lemma RoundTrip(f: FileAst, suffix: seq<Byte>)
    requires Serializable(f) && f.text.Some?
    ensures Deserialized(Bytes(f) + suffix) == f <==> Storable(f)
  {
    var data := Bytes(f) + suffix;
    assert data[0..|Bytes(f)|] == Bytes(f);
    DecodeExact(data, f);
  }

  /** A valid AST of an empty source serialises to a non-empty string that does not give back a valid AST. */
  lemma EmptySourceIsLost(f: FileAst, suffix: seq<Byte>)
    requires Serializable(f) && f.text == Some([])
    ensures |Bytes(f)| >= HEADER_SIZE && Deserialized(Bytes(f) + suffix).text.None?
  {
    var data := Bytes(f) + suffix;
    assert data[0..HEADER_SIZE] == WordBytes(HeaderWords(f));
    WordsExact(data, 0, HeaderWords(f));
    assert HeaderWords(f)[4] == 0 && HeaderWords(f)[5] == 0;
  }

  /** Canonical: serialising an accepted AST again gives exactly the bytes that were read. */
  lemma Canonical(data: seq<Byte>)
    requires Deserialized(data).text.Some?
    ensures Serializable(Deserialized(data)) && Decode(data).value.consumed <= |data|
    ensures Bytes(Deserialized(data)) == data[..Decode(data).value.consumed]
  {
    DecodeSound(data);
    StorableIsSerializable(Deserialized(data));
    SerializedLength(Deserialized(data));
    assert data[..Decode(data).value.consumed] == data[0..Decode(data).value.consumed];
  }

  lemma OnlyOneHeld(data: seq<Byte>, f: FileAst, g: FileAst)
    requires Holds(data, f) && Holds(data, g)
    ensures f == g
  {
    DecodeExact(data, f);
    DecodeExact(data, g);
  }

  lemma HeldInPrefix(data: seq<Byte>, k: nat, g: FileAst)
    requires k <= |data| && Holds(data[..k], g)
    ensures Serializable(g) && |Bytes(g)| <= k && Holds(data, g)
  {
    StorableIsSerializable(g);
    assert data[..k][0..|Bytes(g)|] == data[0..|Bytes(g)|];
  }

  /** Every strict prefix of a serialised AST is rejected. */
  lemma PrefixRejected(f: FileAst, k: nat)
    requires Storable(f)
    ensures Serializable(f)
    ensures k < |Bytes(f)| ==> Deserialized(Bytes(f)[..k]).text.None?
  {
    StorableIsSerializable(f);
    var data := Bytes(f);
    if k < |data| && Deserialized(data[..k]).text.Some? {
      DecodeSound(data[..k]);
      HeldInPrefix(data, k, Deserialized(data[..k]));
      assert data[0..|data|] == data;
      OnlyOneHeld(data, f, Deserialized(data[..k]));
      assert false;
    }
  }
}
