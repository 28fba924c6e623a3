/** What lies outside the cache, and the rows it keeps (src/ast-cache-db.h, src/cache-warm.cpp, src/ast-workspace.cpp).

The file system, Tree-sitter, XXH64 and LZ4 are functions of a `World`; `Lawful` lists what is assumed of them.
A `Disk` is the state of the files at one moment. The database is a map from path to row.
*/
module Worlds {
  import opened Ast
  import opened Options
  import opened Sequences
  import opened Symbols
  import opened Serial
  import Traversal

  datatype Stat = Stat(size: int, mtime: int)

  datatype Disk = Disk(stat: Text -> Option<Stat>, opens: Text -> bool)

  datatype World = World(
    contentAt: (Text, Stat) -> Text,                        // the content of a path while it had this size and mtime
    treeOf: (Text, Text) -> Option<Traversal.Tree>,         // parse tree of a path's content, none for an unknown language
    languageOf: Text -> U32,
    pathHash: Text -> U32,
    collisionsOf: (Text, Text) -> U32,
    contentHash: Text -> U64,
    compress: seq<Byte> -> seq<Byte>,                       // empty on failure
    decompress: (seq<Byte>, nat) -> seq<Byte>,              // empty on failure
    extract: FileAst -> seq<Symbol>,
    includesOf: FileAst -> seq<Text>,
    normal: Text -> Text)

  datatype Row = Row(
    sourceHash: U64,
    sourceSize: int,
    sourceMtime: int,
    language: U32,
    formatVersion: U32,
    isLz4: bool,
    blob: seq<Byte>,
    uncompressedSize: nat)

  type Database = map<Text, Row>

  // ---- Assumptions ----------------------------------------------------------

  /** A parse tree as Tree-sitter gives it: distinct non-null ids, ranges inside the source, few enough nodes for a uint32 count. */
  ghost predicate GoodTree(t: Traversal.Tree, source: Text) {
    && Traversal.Size(t) <= MAX_NODES && Traversal.InSource(t, |source|)
    && Distinct(Traversal.Ids(Traversal.Raw(t, source, Traversal.NULL_ID)))
    && Traversal.NULL_ID !in Traversal.Ids(Traversal.Raw(t, source, Traversal.NULL_ID))
  }

  ghost predicate TreesGood(w: World) {
    forall path, source :: w.treeOf(path, source).Some? ==> GoodTree(w.treeOf(path, source).value, source)
  }

  ghost predicate SourcesFit(w: World) {
    forall path, stat :: |w.contentAt(path, stat)| < 0x8000_0000_0000_0000
  }

  /** No two contents that one path has over time hash alike. */
  ghost predicate CollisionFree(w: World) {
    forall path, a, b :: w.contentHash(w.contentAt(path, a)) == w.contentHash(w.contentAt(path, b)) ==>
      w.contentAt(path, a) == w.contentAt(path, b)
  }

  ghost predicate Lossless(w: World) {
    forall raw :: w.compress(raw) != [] ==> w.decompress(w.compress(raw), |raw|) == raw
  }

  ghost predicate Lawful(w: World) {
    TreesGood(w) && SourcesFit(w) && CollisionFree(w) && Lossless(w)
  }

  /** A world in which every file always holds `source`, which parses to `tree`, and nothing is compressed. */
  function UniformWorld(source: Text, tree: Traversal.Tree): World {
    World((path, stat) => source, (path, s) => if s == source then Some(tree) else None, path => 0, path => 0,
          (path, s) => 0, s => 1, raw => [], (blob, n) => blob, ast => [], ast => [], path => path)
  }

  /** The assumptions can be met, whatever a file holds. */
  lemma UniformIsLawful(source: Text, tree: Traversal.Tree)
    requires |source| < 0x8000_0000_0000_0000 && GoodTree(tree, source)
    ensures Lawful(UniformWorld(source, tree))
  {
    var w := UniformWorld(source, tree);
    forall path, s | w.treeOf(path, s).Some? ensures GoodTree(w.treeOf(path, s).value, s) {
      assert s == source;
    }
  }

  /** The parse of a source of one letter: a single node. */
  function LetterTree(): Traversal.Tree {
    Traversal.Tree(Traversal.Info(1, 0, 0, 0, 1, Point(0, 0), Point(0, 1), true, false, false, false, 0), [])
  }

  lemma LetterIsGood()
    ensures GoodTree(LetterTree(), [65])
  {
    var t := LetterTree();
    assert Traversal.Raw(t, [65], Traversal.NULL_ID) == [Traversal.RawNode(t, [65], Traversal.NULL_ID)];
  }

  // ---- Parsing --------------------------------------------------------------

  /** The content of `path`, when it can be stat'ed and opened. */
  function Content(w: World, d: Disk, path: Text): Option<Text> {
    match d.stat(path)
    case None => None
    case Some(stat) => if d.opens(path) then Some(w.contentAt(path, stat)) else None
  }

  /** parse() on a file with this content: loaded text, flattened tree. */
  function ParsedAst(w: World, path: Text, source: Text): FileAst {
    FileAst(w.languageOf(path), w.pathHash(path), w.collisionsOf(path, source), Some(source),
            match w.treeOf(path, source)
            case None => []
            case Some(t) => Traversal.Flat(t, source, 0, INVALID_ID))
  }

  function ParseFile(w: World, d: Disk, path: Text): FileAst {
    match Content(w, d, path)
    case None => INVALID_AST
    case Some(source) => ParsedAst(w, path, source)
  }

  lemma {:induction false} RisingIsShort(s: seq<nat>, k: nat, bound: nat)
    requires k <= |s| && forall i, j :: 0 <= i < j < |s| ==> s[i] < s[j]
    requires forall i :: 0 <= i < |s| ==> s[i] < bound
    ensures k > 0 ==> k <= s[k - 1] + 1
    decreases k
  {
    if k > 1 {
      RisingIsShort(s, k - 1, bound);
    }
  }

  lemma NodeFits(nodes: seq<Node>, i: nat)
    requires WellFormed(nodes) && i < |nodes|
    ensures NodeEncodable(nodes[i]) && |nodes[i].children| <= |nodes|
  {
    var c := nodes[i].children;
    assert Linked(nodes, i);
    if i > 0 {
      assert Parented(nodes, i);
    }
    forall j, k | 0 <= j < k < |c| ensures c[j] < c[k] {
      ChildrenRise(nodes, i, j, k);
    }
    RisingIsShort(c, |c|, |nodes|);
  }

  /** Every parsed AST meets what the format asks of nodes. */
  lemma ParsedNodesStorable(w: World, path: Text, source: Text)
    requires TreesGood(w)
    ensures var nodes := ParsedAst(w, path, source).nodes;
      |nodes| <= MAX_NODES && WellFormed(nodes) && NodesStorable(nodes, |nodes|, source)
  {
    var nodes := ParsedAst(w, path, source).nodes;
    if w.treeOf(path, source).Some? {
      var t := w.treeOf(path, source).value;
      assert GoodTree(t, source);
      Traversal.FlatIsWellFormed(t, source);
      forall i | 0 <= i < |nodes| ensures NodeStorable(nodes[i], |nodes|, source) {
        NodeFits(nodes, i);
        Traversal.FlatTexts(t, source, 0, INVALID_ID, i);
      }
    }
  }

  /** The source of `ast` can be given back by the format: non-empty and within its limits. */
  predicate WithinLimits(ast: FileAst) {
    ast.text.Some? && 0 < |ast.text.value| <= MAX_SOURCE && |ast.nodes| <= MAX_STORED_NODES
  }

  lemma ParsedSerializable(w: World, path: Text, source: Text)
    requires TreesGood(w) && |source| < 0x8000_0000_0000_0000
    ensures Serializable(ParsedAst(w, path, source))
    ensures WithinLimits(ParsedAst(w, path, source)) <==> Storable(ParsedAst(w, path, source))
  {
    var f := ParsedAst(w, path, source);
    ParsedNodesStorable(w, path, source);
    forall i | 0 <= i < |f.nodes| ensures NodeEncodable(f.nodes[i]) {
      assert NodeStorable(f.nodes[i], |f.nodes|, source);
    }
  }

  // ---- Rows -----------------------------------------------------------------

  /** The hash stored for a source: none, written as 0, when it is empty. */
  function StoredHash(w: World, source: Text): U64 {
    if source == [] then 0 else w.contentHash(source)
  }

  /** A complete row for `ast`, stamped with `stat`; none when there is nothing to serialise. */
  function EntryFor(w: World, ast: FileAst, stat: Option<Stat>): Option<Row>
    requires Serializable(ast)
  {
    var raw := Bytes(ast);
    if raw == [] then None
    else
      var compressed := w.compress(raw);
      var small := compressed != [] && |compressed| < |raw|;
      var stamp := if stat.Some? then stat.value else Stat(0, 0);
      Some(Row(if ast.text.Some? then StoredHash(w, ast.text.value) else 0, stamp.size, stamp.mtime,
               ast.language, FORMAT_VERSION, small, if small then compressed else raw, |raw|))
  }

  /** The serialised AST that a row holds. */
  function RawOf(w: World, row: Row): seq<Byte> {
    if row.isLz4 then w.decompress(row.blob, row.uncompressedSize) else row.blob
  }

  /** A row of the current version faithfully encodes the content its path had at the row's stamp. */
  ghost predicate RowOk(w: World, path: Text, row: Row) {
    row.formatVersion == FORMAT_VERSION ==>
      var source := w.contentAt(path, Stat(row.sourceSize, row.sourceMtime));
      && Serializable(ParsedAst(w, path, source))
      && row.sourceHash == StoredHash(w, source)
      && row.blob != [] && RawOf(w, row) == Bytes(ParsedAst(w, path, source))
  }

  ghost predicate DatabaseOk(w: World, db: Database) {
    forall path :: path in db ==> RowOk(w, path, db[path])
  }

  /** The complete row for the content that `path` had at `stat`; its blob is the shorter of raw and compressed bytes. */
  ghost predicate RowFor(w: World, path: Text, stat: Stat, row: Row) {
    var source := w.contentAt(path, stat);
    && Serializable(ParsedAst(w, path, source))
    && var raw := Bytes(ParsedAst(w, path, source));
       && row.sourceHash == (if |source| > 0 then w.contentHash(source) else 0)
       && Stat(row.sourceSize, row.sourceMtime) == stat && row.formatVersion == FORMAT_VERSION
       && row.language == w.languageOf(path) && row.uncompressedSize == |raw|
       && row.isLz4 == (0 < |w.compress(raw)| < |raw|)
       && row.blob == if row.isLz4 then w.compress(raw) else raw
  }

  lemma EntryExact(w: World, path: Text, stat: Stat)
    requires TreesGood(w) && SourcesFit(w)
    ensures var ast := ParsedAst(w, path, w.contentAt(path, stat));
      && Serializable(ast) && EntryFor(w, ast, Some(stat)).Some? && RowFor(w, path, stat, EntryFor(w, ast, Some(stat)).value)
  {
    var source := w.contentAt(path, stat);
    ParsedSerializable(w, path, source);
    SerializedLength(ParsedAst(w, path, source));
  }

  /** The row made for a freshly parsed file is faithful. */
  lemma EntryIsOk(w: World, path: Text, stat: Stat)
    requires Lawful(w)
    ensures var ast := ParsedAst(w, path, w.contentAt(path, stat));
      && Serializable(ast) && EntryFor(w, ast, Some(stat)).Some?
      && RowOk(w, path, EntryFor(w, ast, Some(stat)).value)
      && EntryFor(w, ast, Some(stat)).value.sourceSize == stat.size && EntryFor(w, ast, Some(stat)).value.sourceMtime == stat.mtime
      && EntryFor(w, ast, Some(stat)).value.formatVersion == FORMAT_VERSION
  {
    var source := w.contentAt(path, stat);
    var ast := ParsedAst(w, path, source);
    ParsedSerializable(w, path, source);
    SerializedLength(ast);
    var raw := Bytes(ast);
    var row := EntryFor(w, ast, Some(stat)).value;
    assert Stat(row.sourceSize, row.sourceMtime) == stat;
    if row.isLz4 {
      assert w.decompress(w.compress(raw), |raw|) == raw;
    }
  }

  /** A parsed AST comes back from its bytes within the limits, and no valid AST does beyond them. */
  lemma ParsedRoundTrip(w: World, path: Text, source: Text)
    requires TreesGood(w) && Serializable(ParsedAst(w, path, source))
    ensures var ast := ParsedAst(w, path, source);
      && Bytes(ast) != []
      && (WithinLimits(ast) ==> Deserialized(Bytes(ast)) == ast)
      && (!WithinLimits(ast) ==> Deserialized(Bytes(ast)).text.None?)
  {
    var ast := ParsedAst(w, path, source);
    ParsedSerializable(w, path, source);
    SerializedLength(ast);
    if WithinLimits(ast) {
      assert Bytes(ast) + [] == Bytes(ast);
      RoundTrip(ast, []);
    } else {
      ParsedNodesStorable(w, path, source);
      BeyondLimits(ast);
    }
  }

  /** What a faithful row deserialises to: the parse of its content within the limits, and no valid AST beyond them. */
  lemma FaithfulRow(w: World, path: Text, row: Row)
    requires Lawful(w) && RowOk(w, path, row) && row.formatVersion == FORMAT_VERSION
    ensures var ast := ParsedAst(w, path, w.contentAt(path, Stat(row.sourceSize, row.sourceMtime)));
      && RawOf(w, row) != []
      && (WithinLimits(ast) ==> Deserialized(RawOf(w, row)) == ast)
      && (!WithinLimits(ast) ==> Deserialized(RawOf(w, row)).text.None?)
  {
    ParsedRoundTrip(w, path, w.contentAt(path, Stat(row.sourceSize, row.sourceMtime)));
  }

  /** The serialisation of an AST the format cannot hold gives no valid AST at all. */
  lemma BeyondLimits(ast: FileAst)
    requires Serializable(ast) && ast.text.Some? && NodesStorable(ast.nodes, |ast.nodes|, ast.text.value) && !Storable(ast)
    ensures Deserialized(Bytes(ast)).text.None?
  {
    var data := Bytes(ast);
    SerializedLength(ast);
    assert data[0..HEADER_SIZE] == WordBytes(HeaderWords(ast));
    WordsExact(data, 0, HeaderWords(ast));
    SizeWords(|ast.text.value|);
    if ast.text.value == [] {
      assert data + [] == data;
      EmptySourceIsLost(ast, []);
    } else {
      assert !GoodHeader(HeaderWords(ast));
    }
  }
}
