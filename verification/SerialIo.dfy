/** The writer, the reader and the two entry points of src/ast-serial.cpp, proved against module `Serial`. */
module SerialIo {
  import opened Ast
  import opened Options
  import opened Serial

  class BinaryWriter {
    var buffer: seq<Byte>

    constructor ()
      ensures buffer == []
    {
      buffer := [];
    }

    method WriteU16(v: U16)
      modifies this
      ensures buffer == old(buffer) + Le16(v)
    {
      buffer := buffer + [v % 0x100];
      buffer := buffer + [v / 0x100];
    }

    method WriteU32(v: U32)
      modifies this
      ensures buffer == old(buffer) + Le32(v)
    {
      buffer := buffer + [v % 0x100];
      buffer := buffer + [v / 0x100 % 0x100];
      buffer := buffer + [v / 0x100 / 0x100 % 0x100];
      buffer := buffer + [v / 0x100 / 0x100 / 0x100];
    }

    method WriteU64(v: U64)
      modifies this
      ensures buffer == old(buffer) + Le64(v)
    {
      WriteU32(v % 0x1_0000_0000);
      WriteU32(v / 0x1_0000_0000);
    }

    method WriteBytes(p: seq<Byte>)
      modifies this
      ensures buffer == old(buffer) + p
    {
      buffer := buffer + p;
    }
  }

  class BinaryReader {
    const data: seq<Byte>
    var pos: nat
    var ok: bool

    /** The position never passes the end of the data, whatever the data are. */
    ghost predicate Valid()
      reads this
    {
      pos <= |data|
    }

    constructor (data: seq<Byte>)
      ensures Valid() && this.data == data && pos == 0 && ok
    {
      this.data, pos, ok := data, 0, true;
    }

    method ReadU16() returns (success: bool, v: U16)
      requires Valid()
      modifies this
      ensures Valid() && success == (old(pos) + 2 <= |data|)
      ensures success ==> v == U16At(data, old(pos)) && pos == old(pos) + 2 && ok == old(ok)
      ensures !success ==> pos == old(pos) && !ok
    {
      if pos + 2 > |data| {
        ok := false;
        return false, 0;
      }
      v := U16At(data, pos);
      pos := pos + 2;
      success := true;
    }

    method ReadU32() returns (success: bool, v: U32)
      requires Valid()
      modifies this
      ensures Valid() && success == (old(pos) + 4 <= |data|)
      ensures success ==> v == U32At(data, old(pos)) && pos == old(pos) + 4 && ok == old(ok)
      ensures !success ==> pos == old(pos) && !ok
    {
      if pos + 4 > |data| {
        ok := false;
        return false, 0;
      }
      v := U32At(data, pos);
      pos := pos + 4;
      success := true;
    }

    /** Reads a low and a high word; on failure the low word may have been consumed. */
    method ReadU64() returns (success: bool, v: U64)
      requires Valid()
      modifies this
      ensures Valid() && success == (old(pos) + 8 <= |data|)
      ensures success ==> v == U32At(data, old(pos)) + 0x1_0000_0000 * U32At(data, old(pos) + 4) as int
      ensures success ==> pos == old(pos) + 8 && ok == old(ok)
      ensures !success ==> !ok
    {
      var low, high: U32;
      success, low := ReadU32();
      if !success {
        return false, 0;
      }
      success, high := ReadU32();
      if !success {
        return false, 0;
      }
      v := low + 0x1_0000_0000 * high as int;
    }

    method ReadBytes(n: nat) returns (success: bool, bytes: seq<Byte>)
      requires Valid()
      modifies this
      ensures Valid() && success == (old(pos) + n <= |data|)
      ensures success ==> bytes == data[old(pos)..old(pos) + n] && pos == old(pos) + n && ok == old(ok)
      ensures !success ==> pos == old(pos) && !ok
    {
      if pos + n > |data| {
        ok := false;
        return false, [];
      }
      bytes := data[pos..pos + n];
      pos := pos + n;
      success := true;
    }
  }

  // ---- Writing --------------------------------------------------------------

  lemma {:induction false} EncodeSnoc(enc: U32 -> seq<Byte>, words: seq<U32>, v: U32)
    requires forall u :: |enc(u)| == 4
    ensures Encode(enc, words + [v]) == Encode(enc, words) + enc(v)
    decreases |words|
  {
    if words == [] {
      assert words + [v] == [v] && [v][1..] == [];
      assert Encode(enc, []) == [];
      assert enc(v) + [] == [] + enc(v);
    } else {
      assert (words + [v])[1..] == words[1..] + [v];
      EncodeSnoc(enc, words[1..], v);
    }
  }

  lemma WordBytesSnoc(words: seq<U32>, v: U32)
    ensures WordBytes(words + [v]) == WordBytes(words) + Le32(v)
  {
    EncodeSnoc(Le32, words, v);
  }

  /** Writes one word; `words` are those written since the buffer was `base`. */
  method PutWord(w: BinaryWriter, v: U32, ghost base: seq<Byte>, ghost words: seq<U32>) returns (ghost written: seq<U32>)
    requires w.buffer == base + WordBytes(words)
    modifies w
    ensures written == words + [v] && w.buffer == base + WordBytes(written)
  {
    w.WriteU32(v);
    written := words + [v];
    WordBytesSnoc(words, v);
  }

  method PutTypes(w: BinaryWriter, low: U16, high: U16, ghost base: seq<Byte>, ghost words: seq<U32>) returns (ghost written: seq<U32>)
    requires w.buffer == base + WordBytes(words)
    modifies w
    ensures written == words + [Pair(low, high)] && w.buffer == base + WordBytes(written)
  {
    w.WriteU16(low);
    w.WriteU16(high);
    written := words + [Pair(low, high)];
    PairBytes(low, high);
    WordBytesSnoc(words, Pair(low, high));
  }

  method WriteIdentity(w: BinaryWriter, n: Node) returns (ghost words: seq<U32>)
    requires NodeEncodable(n)
    modifies w
    ensures words == [EncodeId(n.id), EncodeId(n.parent), n.hash, n.flags, Pair(n.nodeType, n.grammarType)]
    ensures w.buffer == old(w.buffer) + WordBytes(words)
  {
    words := [];
    ghost var base := w.buffer;
    words := PutWord(w, EncodeId(n.id), base, words);
    words := PutWord(w, EncodeId(n.parent), base, words);
    words := PutWord(w, n.hash, base, words);
    words := PutWord(w, n.flags, base, words);
    words := PutTypes(w, n.nodeType, n.grammarType, base, words);
  }

  method WriteThree(w: BinaryWriter, a: U32, b: U32, c: U32, ghost base: seq<Byte>, ghost before: seq<U32>) returns (ghost words: seq<U32>)
    requires w.buffer == base + WordBytes(before)
    modifies w
    ensures words == before + [a, b, c] && w.buffer == base + WordBytes(words)
  {
    words := PutWord(w, a, base, before);
    words := PutWord(w, b, base, words);
    words := PutWord(w, c, base, words);
  }

  method WriteNode(w: BinaryWriter, n: Node)
    requires NodeEncodable(n)
    modifies w
    ensures w.buffer == old(w.buffer) + WordBytes(NodeWords(n))
  {
    ghost var base := w.buffer;
    ghost var words := WriteIdentity(w, n);
    words := WriteThree(w, n.startByte, n.endByte, n.start.row, base, words);
    words := WriteThree(w, n.start.column, n.end.row, n.end.column, base, words);
    words := PutWord(w, |n.children|, base, words);
    assert words == NodeWords(n)[..12];
    for k := 0 to |n.children|
      invariant words == NodeWords(n)[..12 + k] && w.buffer == base + WordBytes(words)
    {
      words := PutWord(w, EncodeId(n.children[k]), base, words);
    }
    assert words == NodeWords(n);
  }

  lemma NodesBytesSnoc(nodes: seq<Node>, i: nat)
    requires AllNodesEncodable(nodes) && i < |nodes|
    ensures NodesBytes(nodes[..i + 1]) == NodesBytes(nodes[..i]) + WordBytes(NodeWords(nodes[i]))
    decreases i
  {
    if i == 0 {
      assert nodes[..1][1..] == [] && nodes[..0] == [];
    } else {
      assert nodes[..i + 1][1..] == nodes[1..][..i] && nodes[..i][1..] == nodes[1..][..i - 1];
      NodesBytesSnoc(nodes[1..], i - 1);
    }
  }

  method WriteHeader(w: BinaryWriter, f: FileAst)
    requires Serializable(f) && f.text.Some? && w.buffer == []
    modifies w
    ensures w.buffer == WordBytes(HeaderWords(f))
  {
    ghost var words: seq<U32> := [];
    words := PutWord(w, MAGIC, [], words);
    words := PutWord(w, FORMAT_VERSION, [], words);
    words := PutWord(w, f.language, [], words);
    words := PutWord(w, |f.nodes|, [], words);
    ghost var before := w.buffer;
    var size: U64 := |f.text.value|;
    w.WriteU64(size);
    WordBytesSnoc(words, size % 0x1_0000_0000);
    WordBytesSnoc(words + [size % 0x1_0000_0000], size / 0x1_0000_0000);
    words := words + [size % 0x1_0000_0000] + [size / 0x1_0000_0000];
    assert w.buffer == WordBytes(words);
    words := PutWord(w, f.filepathHash, [], words);
    words := PutWord(w, f.collisions, [], words);
    assert words == HeaderWords(f);
  }

  method Serialize(f: FileAst) returns (bytes: seq<Byte>)
    requires Serializable(f)
    ensures bytes == Bytes(f)
  {
    if f.text.None? {
      return [];
    }
    var w := new BinaryWriter();
    WriteHeader(w, f);
    if |f.text.value| > 0 {
      w.WriteBytes(f.text.value);
    }
    ghost var head := WordBytes(HeaderWords(f)) + f.text.value;
    assert w.buffer == head;
    for i := 0 to |f.nodes|
      invariant w.buffer == head + NodesBytes(f.nodes[..i])
    {
      NodesBytesSnoc(f.nodes, i);
      WriteNode(w, f.nodes[i]);
    }
    assert f.nodes[..|f.nodes|] == f.nodes;
    bytes := w.buffer;
  }

  // ---- Reading --------------------------------------------------------------

  /** The fixed fields of a node. */
  datatype Fields = Fields(id: U32, parent: U32, hash: U32, flags: U32, nodeType: U16, grammarType: U16, startByte: U32,
                           endByte: U32, start: Point, end: Point, childCount: U32)

  function FieldsAt(data: seq<Byte>, p: nat): Fields
    requires p + 48 <= |data|
  {
    Fields(U32At(data, p), U32At(data, p + 4), U32At(data, p + 8), U32At(data, p + 12), U16At(data, p + 16), U16At(data, p + 18),
           U32At(data, p + 20), U32At(data, p + 24), Point(U32At(data, p + 28), U32At(data, p + 32)),
           Point(U32At(data, p + 36), U32At(data, p + 40)), U32At(data, p + 44))
  }

  method ReadFour(r: BinaryReader) returns (success: bool, a: U32, b: U32, c: U32, d: U32)
    requires r.Valid()
    modifies r
    ensures r.Valid() && success == (old(r.pos) + 16 <= |r.data|)
    ensures success ==> r.pos == old(r.pos) + 16 && r.ok == old(r.ok)
    ensures success ==> a == U32At(r.data, old(r.pos)) && b == U32At(r.data, old(r.pos) + 4)
    ensures success ==> c == U32At(r.data, old(r.pos) + 8) && d == U32At(r.data, old(r.pos) + 12)
  {
    a, b, c, d := 0, 0, 0, 0;
    success, a := r.ReadU32();
    if !success { return; }
    success, b := r.ReadU32();
    if !success { return; }
    success, c := r.ReadU32();
    if !success { return; }
    success, d := r.ReadU32();
  }

  method ReadTypes(r: BinaryReader) returns (success: bool, nodeType: U16, grammarType: U16)
    requires r.Valid()
    modifies r
    ensures r.Valid() && success == (old(r.pos) + 4 <= |r.data|)
    ensures success ==> r.pos == old(r.pos) + 4 && r.ok == old(r.ok)
    ensures success ==> nodeType == U16At(r.data, old(r.pos)) && grammarType == U16At(r.data, old(r.pos) + 2)
  {
    nodeType, grammarType := 0, 0;
    success, nodeType := r.ReadU16();
    if !success { return; }
    success, grammarType := r.ReadU16();
  }

  /** Reads the fixed fields in order; fails at the first that the data do not hold. */
  method ReadFields(r: BinaryReader) returns (fields: Option<Fields>)
    requires r.Valid()
    modifies r
    ensures r.Valid() && fields.Some? == (old(r.pos) + 48 <= |r.data|)
    ensures fields.Some? ==> fields.value == FieldsAt(r.data, old(r.pos)) && r.pos == old(r.pos) + 48 && r.ok == old(r.ok)
  {
    fields := None;
    var s, id, parent, hash, flags := ReadFour(r);
    if !s { return; }
    var t, nodeType, grammarType := ReadTypes(r);
    if !t { return; }
    var u, startByte, endByte, startRow, startCol := ReadFour(r);
    if !u { return; }
    var endRow, endCol, childCount: U32;
    s, endRow := r.ReadU32();
    if !s { return; }
    s, endCol := r.ReadU32();
    if !s { return; }
    s, childCount := r.ReadU32();
    if !s { return; }
    fields := Some(Fields(id, parent, hash, flags, nodeType, grammarType, startByte, endByte,
                          Point(startRow, startCol), Point(endRow, endCol), childCount));
  }

  function NodeOf(f: Fields, children: seq<nat>, source: Text): Node {
    Node(DecodeId(f.id), DecodeId(f.parent), f.hash, f.flags, f.nodeType, f.grammarType,
         if f.endByte <= |source| && f.startByte <= f.endByte then source[f.startByte..f.endByte] else [],
         f.startByte, f.endByte, f.start, f.end, children)
  }

  /** The fixed fields are the first twelve words. */
  lemma FieldsAreWords(data: seq<Byte>, p: nat, count: nat)
    requires p + 4 * count <= |data| && count >= 12
    ensures var f, w := FieldsAt(data, p), WordsAt(data, p, count);
      && f.id == w[0] && f.parent == w[1] && f.hash == w[2] && f.flags == w[3]
      && f.nodeType == w[4] % 0x1_0000 && f.grammarType == w[4] / 0x1_0000
      && f.startByte == w[5] && f.endByte == w[6] && f.start == Point(w[7], w[8]) && f.end == Point(w[9], w[10])
  {
    IdentityWords(data, p, count);
    WordAt(data, p, count, 5);
    WordAt(data, p, count, 6);
    WordAt(data, p, count, 7);
    WordAt(data, p, count, 8);
    WordAt(data, p, count, 9);
    WordAt(data, p, count, 10);
  }

  lemma IdentityWords(data: seq<Byte>, p: nat, count: nat)
    requires p + 4 * count <= |data| && count >= 12
    ensures var f, w := FieldsAt(data, p), WordsAt(data, p, count);
      && f.id == w[0] && f.parent == w[1] && f.hash == w[2] && f.flags == w[3]
      && f.nodeType == w[4] % 0x1_0000 && f.grammarType == w[4] / 0x1_0000
  {
    WordAt(data, p, count, 0);
    WordAt(data, p, count, 1);
    WordAt(data, p, count, 2);
    WordAt(data, p, count, 3);
    WordAt(data, p, count, 4);
    PairAt(data, p + 16);
    PairSplit(U16At(data, p + 16), U16At(data, p + 18));
  }

  /** Fields and children read one by one make the node that the words describe. */
  lemma NodeOfFields(data: seq<Byte>, p: nat, childCount: nat, source: Text)
    requires p + 48 + 4 * childCount <= |data|
    ensures NodeOf(FieldsAt(data, p), DecodeIds(WordsAt(data, p + 48, childCount)), source) == NodeFrom(WordsAt(data, p, 12 + childCount), source)
  {
    FieldsAreWords(data, p, 12 + childCount);
    WordsAfter(data, p, 12 + childCount, 12);
  }

  lemma WordsSnoc(data: seq<Byte>, pos: nat, count: nat)
    requires pos + 4 * count + 4 <= |data|
    ensures WordsAt(data, pos, count + 1) == WordsAt(data, pos, count) + [U32At(data, pos + 4 * count)]
  {
    var now, was := WordsAt(data, pos, count + 1), WordsAt(data, pos, count);
    WordAt(data, pos, count + 1, count);
    forall i | 0 <= i < count ensures now[i] == was[i] {
      WordAt(data, pos, count + 1, i);
      WordAt(data, pos, count, i);
    }
  }

  method ReadOneNode(r: BinaryReader, nodeCount: U32, source: Text) returns (node: Option<Node>)
    requires r.Valid()
    modifies r
    ensures r.Valid() && node == ReadNode(r.data, old(r.pos), nodeCount, source)
    ensures node.Some? ==> r.pos == old(r.pos) + NodeSize(node.value) && r.ok == old(r.ok)
  {
    ghost var p := r.pos;
    var fields := ReadFields(r);
    if fields.None? {
      return None;
    }
    var childCount := fields.value.childCount;
    if childCount > nodeCount {
      return None;
    }
    var children: seq<nat> := [];
    for ci := 0 to childCount
      invariant r.Valid() && r.pos == p + 48 + 4 * ci && r.ok == old(r.ok)
      invariant children == DecodeIds(WordsAt(r.data, p + 48, ci))
    {
      var s, rawChild := r.ReadU32();
      if !s {
        return None;
      }
      WordsSnoc(r.data, p + 48, ci);
      children := children + [DecodeId(rawChild)];
    }
    NodeOfFields(r.data, p, childCount, source);
    node := Some(NodeOf(fields.value, children, source));
  }

  /** The whole run when `nodes` are read already and `k` more stand from `pos` on. */
  ghost function Continue(read: nat -> Option<Node>, nodes: seq<Node>, pos: nat, k: nat): Option<seq<Node>>
    decreases k
  {
    if k == 0 then Some(nodes)
    else
      match read(pos)
      case None => None
      case Some(n) => Continue(read, nodes + [n], pos + NodeSize(n), k - 1)
  }

  lemma {:induction false} ContinueReads(read: nat -> Option<Node>, nodes: seq<Node>, pos: nat, k: nat)
    ensures Continue(read, nodes, pos, k) == match ReadMany(read, pos, k) case None => None case Some(rest) => Some(nodes + rest)
    decreases k
  {
    if k == 0 {
      assert nodes + [] == nodes;
    } else if read(pos).Some? {
      var n := read(pos).value;
      ContinueReads(read, nodes + [n], pos + NodeSize(n), k - 1);
      var later := ReadMany(read, pos + NodeSize(n), k - 1);
      if later.Some? {
        assert nodes + ([n] + later.value) == (nodes + [n]) + later.value;
      }
    }
  }

  lemma {:induction false} ContinueFromNothing(read: nat -> Option<Node>, pos: nat, k: nat)
    ensures Continue(read, [], pos, k) == ReadMany(read, pos, k)
  {
    ContinueReads(read, [], pos, k);
    var all := ReadMany(read, pos, k);
    if all.Some? {
      assert [] + all.value == all.value;
    }
  }

  lemma ContinueStep(read: nat -> Option<Node>, nodes: seq<Node>, pos: nat, k: nat)
    requires k > 0
    ensures Continue(read, nodes, pos, k)
         == match read(pos) case None => None case Some(n) => Continue(read, nodes + [n], pos + NodeSize(n), k - 1)
  {
  }

  /** Reads the next of `k` nodes and says what is left of the run. */
  method ReadNext(r: BinaryReader, nodeCount: U32, source: Text, ghost nodes: seq<Node>, ghost k: nat) returns (node: Option<Node>)
    requires r.Valid() && k > 0
    modifies r
    ensures r.Valid() && (node.Some? ==> r.ok == old(r.ok))
    ensures Continue(NodeReader(r.data, nodeCount, source), nodes, old(r.pos), k)
         == if node.None? then None else Continue(NodeReader(r.data, nodeCount, source), nodes + [node.value], r.pos, k - 1)
  {
    ContinueStep(NodeReader(r.data, nodeCount, source), nodes, r.pos, k);
    node := ReadOneNode(r, nodeCount, source);
  }

  method ReadAllNodes(r: BinaryReader, nodeCount: U32, source: Text) returns (result: Option<seq<Node>>)
    requires r.Valid()
    modifies r
    ensures r.Valid() && result == ReadNodes(r.data, old(r.pos), nodeCount, nodeCount, source)
    ensures result.Some? ==> r.ok == old(r.ok)
  {
    ContinueFromNothing(NodeReader(r.data, nodeCount, source), r.pos, nodeCount);
    var nodes: seq<Node> := [];
    for i := 0 to nodeCount
      invariant r.Valid() && r.ok == old(r.ok)
      invariant Continue(NodeReader(r.data, nodeCount, source), [], old(r.pos), nodeCount)
             == Continue(NodeReader(r.data, nodeCount, source), nodes, r.pos, nodeCount - i)
    {
      var node := ReadNext(r, nodeCount, source, nodes, nodeCount - i);
      if node.None? {
        return None;
      }
      nodes := nodes + [node.value];
    }
    result := Some(nodes);
  }

  lemma HeaderIsEightWords(data: seq<Byte>)
    requires |data| >= HEADER_SIZE
    ensures WordsAt(data, 0, 8)
         == [U32At(data, 0), U32At(data, 4), U32At(data, 8), U32At(data, 12), U32At(data, 16), U32At(data, 20), U32At(data, 24), U32At(data, 28)]
  {
    forall i: nat | i < 8 ensures WordsAt(data, 0, 8)[i] == U32At(data, 4 * i) {
      WordAt(data, 0, 8, i);
    }
  }

  method ReadHeader(r: BinaryReader) returns (header: Option<seq<U32>>)
    requires r.Valid() && r.pos == 0 && r.ok && |r.data| >= HEADER_SIZE
    modifies r
    ensures r.Valid() && header == (var h := WordsAt(r.data, 0, 8); if GoodHeader(h) then Some(h) else None)
    ensures header.Some? ==> r.pos == HEADER_SIZE && r.ok
  {
    header := None;
    HeaderIsEightWords(r.data);
    var s: bool;
    var magic, version, langRaw, nodeCount, filepathHash, collisions: U32;
    var srcSize: U64;
    s, magic := r.ReadU32();
    if magic != MAGIC { return; }
    s, version := r.ReadU32();
    if version != FORMAT_VERSION { return; }
    s, langRaw := r.ReadU32();
    s, nodeCount := r.ReadU32();
    s, srcSize := r.ReadU64();
    s, filepathHash := r.ReadU32();
    s, collisions := r.ReadU32();
    if srcSize > MAX_SOURCE { return; }
    if nodeCount > MAX_STORED_NODES { return; }
    SizeFromWords(U32At(r.data, 16), U32At(r.data, 20));
    header := Some([magic, version, langRaw, nodeCount, srcSize % 0x1_0000_0000, srcSize / 0x1_0000_0000, filepathHash, collisions]);
  }

  method Deserialize(data: seq<Byte>) returns (ast: FileAst)
    ensures ast == Deserialized(data)
  {
    if |data| < HEADER_SIZE {
      return INVALID_AST;
    }
    var r := new BinaryReader(data);
    var header := ReadHeader(r);
    if header.None? {
      return INVALID_AST;
    }
    var h := header.value;
    var srcSize := SourceSize(h);
    var text: Option<Text> := None;
    if srcSize > 0 {
      if r.pos + srcSize > |data| {
        return INVALID_AST;
      }
      var s, bytes := r.ReadBytes(srcSize);
      text := Some(bytes);
    }
    var source := if text.Some? then text.value else [];
    assert source == data[HEADER_SIZE..HEADER_SIZE + srcSize];
    var nodes := ReadAllNodes(r, h[3], source);
    if nodes.None? {
      return INVALID_AST;
    }
    if !r.ok {
      return INVALID_AST;
    }
    ast := FileAst(h[2], h[6], h[7], text, nodes.value);
  }
}
