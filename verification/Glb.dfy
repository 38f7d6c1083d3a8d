/** The binary glTF writer and a reader. */
module Glb {
  import opened Basics

  type Byte = b: int | 0 <= b < 256

  /** The 32 bits of a typed-array element. */
  type Word = w: int | 0 <= w < 0x1_0000_0000

  /** A number, or the infinity that a bound starts from. */
  datatype Bound = Below | At(x: real) | Above

  datatype Mesh = Mesh(positions: seq<Word>, normals: Option<seq<Word>>, indices: Option<seq<Word>>,
                       color: Option<(real, real, real)>)

  datatype View = View(offset: nat, length: nat, target: nat)

  datatype Shape = Vec3 | Scalar

  datatype Accessor = Accessor(view: nat, component: nat, count: nat, shape: Shape, min: seq<Bound>, max: seq<Bound>)

  datatype Primitive = Primitive(position: nat, normal: Option<nat>, indices: Option<nat>, material: nat)

  datatype Document = Document(views: seq<View>, accessors: seq<Accessor>, meshes: seq<Primitive>,
                               materials: seq<(real, real, real)>, bufferLength: int)

  // ---- bytes

  /** Little-endian, as the typed arrays are on the platforms served. */
  function WordBytes(w: Word): (r: seq<Byte>)
    ensures |r| == 4
  {
    var h: int := w / 256;
    var i: int := h / 256;
    [w % 256, h % 256, i % 256, i / 256]
  }

  function Bytes(words: seq<Word>): (r: seq<Byte>)
    ensures |r| == 4 * |words|
  {
    if words == [] then [] else Bytes(words[..|words| - 1]) + WordBytes(words[|words| - 1])
  }

  function WordAt(b: seq<Byte>, at: nat): Word
    requires at + 4 <= |b|
  {
    var b0: int, b1: int, b2: int, b3: int := b[at], b[at + 1], b[at + 2], b[at + 3];
    b0 + 256 * (b1 + 256 * (b2 + 256 * b3))
  }

  function Words(b: seq<Byte>, at: nat, count: nat): seq<Word>
    requires at + 4 * count <= |b|
  {
    seq(count, k requires 0 <= k < count => WordAt(b, at + 4 * k))
  }

  lemma WordReadsBack(w: Word)
    ensures WordAt(WordBytes(w), 0) == w
  {
  }

  lemma WordAtIn(b: seq<Byte>, at: nat, w: Word)
    requires at + 4 <= |b| && b[at..at + 4] == WordBytes(w)
    ensures WordAt(b, at) == w
  {
    hide WordBytes;
    var s := b[at..at + 4];
    assert s[0] == b[at] && s[1] == b[at + 1] && s[2] == b[at + 2] && s[3] == b[at + 3];
    assert WordAt(b, at) == WordAt(s, 0);
    WordReadsBack(w);
  }

  lemma {:induction false} BytesAt(words: seq<Word>, k: nat)
    requires k < |words|
    ensures Bytes(words)[4 * k..4 * k + 4] == WordBytes(words[k])
  {
    hide WordBytes;
    var n := |words| - 1;
    var init := words[..n];
    if k < n {
      BytesAt(init, k);
      assert Bytes(words)[4 * k..4 * k + 4] == Bytes(init)[4 * k..4 * k + 4];
    } else {
      assert Bytes(words)[4 * k..4 * k + 4] == WordBytes(words[n]);
    }
  }

  /** What was written as bytes reads back as words, wherever it stands. */
  lemma WordsReadBack(b: seq<Byte>, at: nat, words: seq<Word>)
    requires at + 4 * |words| <= |b| && b[at..at + 4 * |words|] == Bytes(words)
    ensures Words(b, at, |words|) == words
  {
    hide WordBytes, Bytes, WordAt;
    forall k | 0 <= k < |words| ensures WordAt(b, at + 4 * k) == words[k] {
      OneWordReadsBack(b, at, words, k);
    }
  }

  lemma OneWordReadsBack(b: seq<Byte>, at: nat, words: seq<Word>, k: nat)
    requires at + 4 * |words| <= |b| && b[at..at + 4 * |words|] == Bytes(words) && k < |words|
    ensures WordAt(b, at + 4 * k) == words[k]
  {
    hide WordBytes, Bytes, WordAt;
    BytesAt(words, k);
    WordAtIn(Bytes(words), 4 * k, words[k]);
    WordAtShift(b, at, 4 * |words|, 4 * k);
  }

  lemma WordAtShift(b: seq<Byte>, at: nat, len: nat, from: nat)
    requires at + len <= |b| && from + 4 <= len
    ensures WordAt(b[at..at + len], from) == WordAt(b, at + from)
  {
    var s := b[at..at + len];
    assert s[from] == b[at + from] && s[from + 1] == b[at + from + 1];
    assert s[from + 2] == b[at + from + 2] && s[from + 3] == b[at + from + 3];
  }

  // ---- bounds of the positions

  type Values = Word -> real

  predicate Less(a: Bound, b: Bound) {
    match (a, b)
    case (At(x), At(y)) => x < y
    case (Below, Below) => false
    case (Below, _) => true
    case (At(_), Above) => true
    case _ => false
  }

  function Coordinate(value: Values, p: seq<Word>, k: nat, axis: nat): Bound
    requires axis < 3 && 3 * k + axis < |p|
  {
    At(value(p[3 * k + axis]))
  }

  function Least(value: Values, p: seq<Word>, axis: nat, n: nat): Bound
    requires axis < 3 && 3 * n <= |p|
  {
    if n == 0 then Above else
      var rest, x := Least(value, p, axis, n - 1), Coordinate(value, p, n - 1, axis);
      if Less(x, rest) then x else rest
  }

  function Greatest(value: Values, p: seq<Word>, axis: nat, n: nat): Bound
    requires axis < 3 && 3 * n <= |p|
  {
    if n == 0 then Below else
      var rest, x := Greatest(value, p, axis, n - 1), Coordinate(value, p, n - 1, axis);
      if Less(rest, x) then x else rest
  }

  /** The least coordinate: no vertex lies below it and one attains it.  Without
      vertices the bound is still the infinity it started from. */
  lemma {:induction false} LeastExact(value: Values, p: seq<Word>, axis: nat, n: nat)
    requires axis < 3 && 3 * n <= |p|
    ensures forall k :: 0 <= k < n ==> !Less(Coordinate(value, p, k, axis), Least(value, p, axis, n))
    ensures n > 0 ==> exists k :: 0 <= k < n && Coordinate(value, p, k, axis) == Least(value, p, axis, n)
    ensures n == 0 ==> Least(value, p, axis, n) == Above
  {
    if n > 0 {
      LeastExact(value, p, axis, n - 1);
      var rest, x := Least(value, p, axis, n - 1), Coordinate(value, p, n - 1, axis);
      assert n - 1 > 0 || Less(x, rest);
    }
  }

  lemma {:induction false} GreatestExact(value: Values, p: seq<Word>, axis: nat, n: nat)
    requires axis < 3 && 3 * n <= |p|
    ensures forall k :: 0 <= k < n ==> !Less(Greatest(value, p, axis, n), Coordinate(value, p, k, axis))
    ensures n > 0 ==> exists k :: 0 <= k < n && Coordinate(value, p, k, axis) == Greatest(value, p, axis, n)
    ensures n == 0 ==> Greatest(value, p, axis, n) == Below
  {
    if n > 0 {
      GreatestExact(value, p, axis, n - 1);
      var rest, x := Greatest(value, p, axis, n - 1), Coordinate(value, p, n - 1, axis);
      assert n - 1 > 0 || Less(rest, x);
    }
  }

  function Mins(value: Values, p: seq<Word>): seq<Bound> {
    [Least(value, p, 0, |p| / 3), Least(value, p, 1, |p| / 3), Least(value, p, 2, |p| / 3)]
  }

  function Maxs(value: Values, p: seq<Word>): seq<Bound> {
    [Greatest(value, p, 0, |p| / 3), Greatest(value, p, 1, |p| / 3), Greatest(value, p, 2, |p| / 3)]
  }

  method Bounds(value: Values, positions: seq<Word>) returns (min: seq<Bound>, max: seq<Bound>)
    requires |positions| % 3 == 0
    ensures min == Mins(value, positions) && max == Maxs(value, positions)
  {
    var minX, minY, minZ := Above, Above, Above;
    var maxX, maxY, maxZ := Below, Below, Below;
    var i := 0;
    ghost var n := 0;
    while i < |positions|
      invariant i == 3 * n <= |positions|
      invariant minX == Least(value, positions, 0, n) && maxX == Greatest(value, positions, 0, n)
      invariant minY == Least(value, positions, 1, n) && maxY == Greatest(value, positions, 1, n)
      invariant minZ == Least(value, positions, 2, n) && maxZ == Greatest(value, positions, 2, n)
    {
      var x, y, z := At(value(positions[i])), At(value(positions[i + 1])), At(value(positions[i + 2]));
      if Less(x, minX) { minX := x; }
      if Less(maxX, x) { maxX := x; }
      if Less(y, minY) { minY := y; }
      if Less(maxY, y) { maxY := y; }
      if Less(z, minZ) { minZ := z; }
      if Less(maxZ, z) { maxZ := z; }
      i := i + 3;
      n := n + 1;
    }
    min, max := [minX, minY, minZ], [maxX, maxY, maxZ];
  }

  // ---- the parts of the document

  datatype Build = Build(bytes: seq<Byte>, views: seq<View>, accessors: seq<Accessor>, meshes: seq<Primitive>,
                         materials: seq<(real, real, real)>)

  const EMPTY := Build([], [], [], [], [])
  const FLOAT := 5126
  const UNSIGNED_INT := 5125
  const ARRAY_BUFFER := 34962
  const ELEMENT_ARRAY_BUFFER := 34963
  const DEFAULT_COLOR := (0.357, 0.608, 0.965)

  function Zeros(n: nat): seq<Byte> {
    seq(n, _ => 0)
  }

  function PadTo4(b: Build): Build {
    if |b.bytes| % 4 == 0 then b else b.(bytes := b.bytes + Zeros(4 - |b.bytes| % 4))
  }

  /** A view of its own for the array, and an accessor that reads it. */
  function AddArray(b: Build, words: seq<Word>, target: nat, component: nat, count: nat, shape: Shape,
                    min: seq<Bound>, max: seq<Bound>): Build
  {
    b.(views := b.views + [View(|b.bytes|, 4 * |words|, target)], bytes := b.bytes + Bytes(words),
       accessors := b.accessors + [Accessor(|b.views|, component, count, shape, min, max)])
  }

  function AddPositions(value: Values, b: Build, m: Mesh): Build {
    AddArray(b, m.positions, ARRAY_BUFFER, FLOAT, |m.positions| / 3, Vec3, Mins(value, m.positions),
             Maxs(value, m.positions))
  }

  function AddNormals(b: Build, m: Mesh): Build {
    if m.normals.None? then b else
      AddArray(b, m.normals.value, ARRAY_BUFFER, FLOAT, |m.positions| / 3, Vec3, [], [])
  }

  function AddIndices(b: Build, m: Mesh): Build {
    if m.indices.None? then b else
      AddArray(PadTo4(b), m.indices.value, ELEMENT_ARRAY_BUFFER, UNSIGNED_INT, |m.indices.value|, Scalar, [], [])
  }

  function AddMesh(value: Values, b: Build, m: Mesh): Build {
    var p := AddPositions(value, b, m);
    var n := AddNormals(p, m);
    var i := AddIndices(n, m);
    i.(meshes := i.meshes + [Primitive(|b.accessors|, if m.normals.Some? then Some(|p.accessors|) else None,
                                       if m.indices.Some? then Some(|n.accessors|) else None, |b.materials|)],
       materials := i.materials + [if m.color.Some? then m.color.value else DEFAULT_COLOR])
  }

  function AddMeshes(value: Values, meshes: seq<Mesh>): Build {
    if meshes == [] then EMPTY else AddMesh(value, AddMeshes(value, meshes[..|meshes| - 1]), meshes[|meshes| - 1])
  }

  /** The conversion to a signed 32-bit integer that bitwise operators make. */
  function ToInt32(n: int): int {
    var t := n % 0x1_0000_0000;
    if t >= 0x8000_0000 then t - 0x1_0000_0000 else t
  }

  /** `(n + 3) & ~3`. */
  function Align4(n: nat): int {
    var t := ToInt32(n + 3);
    t - t % 4
  }

  /** Rounding up to a multiple of four works below 2^31 - 3 and not above. */
  lemma Align4Exact(n: nat)
    ensures Align4(n) % 4 == 0
    ensures n <= Align4(n) <==> n + 3 < 0x8000_0000
    ensures n <= Align4(n) ==> Align4(n) < n + 4
  {
  }

  function DocumentOf(b: Build, total: int): Document {
    Document(b.views, b.accessors, b.meshes, b.materials, total)
  }

  function Header(total: nat): seq<Byte>
    requires total < 0x1_0000_0000
  {
    WordBytes(0x46546C67) + WordBytes(2) + WordBytes(total)
  }

  function Chunk(kind: Word, data: seq<Byte>): seq<Byte>
    requires |data| < 0x1_0000_0000
  {
    WordBytes(|data|) + WordBytes(kind) + data
  }

  const JSON: Word := 0x4E4F534A
  const BIN: Word := 0x004E4942

  function Spaces(n: nat): seq<Byte> {
    seq(n, _ => 0x20)
  }

  function File(json: seq<Byte>, bin: seq<Byte>): seq<Byte>
    requires 28 + |json| + |bin| < 0x1_0000_0000
  {
    Header(28 + |json| + |bin|) + Chunk(JSON, json) + Chunk(BIN, bin)
  }

  /** How far rounding up goes, where it does not overflow. */
  function Padding(n: nat): (r: nat)
    ensures r < 4
  {
    Align4Exact(n);
    if n <= Align4(n) then Align4(n) - n else 0
  }

  function PadSpaces(json: seq<Byte>): seq<Byte> {
    json + Spaces(Padding(|json|))
  }

  function PadZeros(bytes: seq<Byte>): seq<Byte> {
    bytes + Zeros(Padding(|bytes|))
  }

  // ---- layout

  predicate ViewInside(v: View, size: nat) {
    v.offset % 4 == 0 && v.offset + v.length <= size
  }

  /** Views are 4-aligned, inside, and each ends before the next begins. */
  predicate LaidOut(b: Build) {
    && |b.bytes| % 4 == 0 && |b.views| == |b.accessors|
    && (forall k :: 0 <= k < |b.views| ==> ViewInside(b.views[k], |b.bytes|))
    && (forall k, l :: 0 <= k < l < |b.views| ==> EndsBefore(b.views[k], b.views[l]))
    && (forall k :: 0 <= k < |b.accessors| ==> b.accessors[k].view == k)
  }

  predicate EndsBefore(v: View, w: View) {
    v.offset + v.length <= w.offset
  }

  /** Every array is a whole number of words, so padding never adds a byte. */
  lemma NoPadding(b: Build)
    requires LaidOut(b)
    ensures PadTo4(b) == b
  {
  }

  lemma ArrayLaidOut(b: Build, words: seq<Word>, target: nat, component: nat, count: nat, shape: Shape,
                     min: seq<Bound>, max: seq<Bound>)
    requires LaidOut(b)
    ensures LaidOut(AddArray(b, words, target, component, count, shape, min, max))
  {
    hide Bytes;
  }

  lemma MeshLaidOut(value: Values, b: Build, m: Mesh)
    requires LaidOut(b)
    ensures LaidOut(AddMesh(value, b, m))
  {
    hide LaidOut, AddArray, Mins, Maxs;
    var p := AddPositions(value, b, m);
    ArrayLaidOut(b, m.positions, ARRAY_BUFFER, FLOAT, |m.positions| / 3, Vec3, Mins(value, m.positions),
                 Maxs(value, m.positions));
    var n := AddNormals(p, m);
    if m.normals.Some? {
      ArrayLaidOut(p, m.normals.value, ARRAY_BUFFER, FLOAT, |m.positions| / 3, Vec3, [], []);
    }
    NoPadding(n);
    if m.indices.Some? {
      ArrayLaidOut(n, m.indices.value, ELEMENT_ARRAY_BUFFER, UNSIGNED_INT, |m.indices.value|, Scalar, [], []);
    }
    SameLayout(AddIndices(n, m), AddMesh(value, b, m));
  }

  lemma SameLayout(a: Build, b: Build)
    requires LaidOut(a) && a.bytes == b.bytes && a.views == b.views && a.accessors == b.accessors
    ensures LaidOut(b)
  {
  }

  lemma {:induction false} MeshesLaidOut(value: Values, meshes: seq<Mesh>)
    ensures LaidOut(AddMeshes(value, meshes))
  {
    hide AddMesh;
    if meshes != [] {
      MeshesLaidOut(value, meshes[..|meshes| - 1]);
      MeshLaidOut(value, AddMeshes(value, meshes[..|meshes| - 1]), meshes[|meshes| - 1]);
    }
  }

  // ---- reading

  datatype Chunks = Chunks(json: seq<Byte>, bin: seq<Byte>)

  /** The layout of section 4.4 of the glTF 2.0 specification:
      magic, version 2, a length that is the byte count, a JSON chunk and behind
      it a binary chunk that ends the file. */
  function ReadFile(b: seq<Byte>): Option<Chunks> {
    if |b| < 20 || WordAt(b, 0) != 0x46546C67 || WordAt(b, 4) != 2 || WordAt(b, 8) != |b| then None else
      var n: nat := WordAt(b, 12);
      if WordAt(b, 16) != 0x4E4F534A || |b| < 28 + n then None else
        var k: nat := WordAt(b, 20 + n);
        if WordAt(b, 24 + n) != 0x004E4942 || |b| != 28 + n + k then None else
          Some(Chunks(b[20..20 + n], b[28 + n..]))
  }

  function Components(shape: Shape): nat {
    if shape.Vec3? then 3 else 1
  }

  /** The words an accessor addresses, if its view holds that many. */
  function ReadAccessor(d: Document, bin: seq<Byte>, k: nat): Option<seq<Word>> {
    if k >= |d.accessors| || d.accessors[k].view >= |d.views| then None else
      var a, v := d.accessors[k], d.views[d.accessors[k].view];
      var n := a.count * Components(a.shape);
      if 4 * n <= v.length && v.offset + 4 * n <= |bin| then Some(Words(bin, v.offset, n)) else None
  }

  /** View `k` of the build covers exactly the bytes of `words`. */
  predicate Covers(b: Build, k: nat, words: seq<Word>) {
    && k < |b.views| && k < |b.accessors| && b.accessors[k].view == k
    && CoversAt(b.bytes, b.views[k], words)
  }

  predicate CoversAt(bytes: seq<Byte>, v: View, words: seq<Word>) {
    && v.length == 4 * |words| && v.offset + v.length <= |bytes|
    && bytes[v.offset..v.offset + v.length] == Bytes(words)
  }

  /** The later build has everything of the earlier one, in place. */
  predicate Grown(a: Build, b: Build) {
    && a.bytes <= b.bytes && a.views <= b.views && a.accessors <= b.accessors
    && a.meshes <= b.meshes && a.materials <= b.materials
  }

  lemma CoversGrown(a: Build, b: Build, k: nat, words: seq<Word>)
    requires Covers(a, k, words) && Grown(a, b)
    ensures Covers(b, k, words)
  {
    hide Bytes;
    var v := a.views[k];
    assert b.bytes[v.offset..v.offset + v.length] == a.bytes[v.offset..v.offset + v.length];
  }

  lemma ArrayCovers(b: Build, words: seq<Word>, target: nat, component: nat, count: nat, shape: Shape,
                    min: seq<Bound>, max: seq<Bound>)
    requires |b.views| == |b.accessors|
    ensures var c := AddArray(b, words, target, component, count, shape, min, max);
      && Grown(b, c) && Covers(c, |b.views|, words) && |c.views| == |c.accessors|
      && c.accessors[|b.views|] == Accessor(|b.views|, component, count, shape, min, max)
      && c.views[|b.views|].target == target
      && c.meshes == b.meshes && c.materials == b.materials
  {
    hide Bytes;
    var c := AddArray(b, words, target, component, count, shape, min, max);
    assert c.bytes[|b.bytes|..|b.bytes| + 4 * |words|] == Bytes(words);
  }

  /** What the document says of a mesh whose arrays lie in the buffer. */
  predicate Described(value: Values, b: Build, p: Primitive, m: Mesh) {
    && Covers(b, p.position, m.positions)
    && b.accessors[p.position]
        == Accessor(p.position, FLOAT, |m.positions| / 3, Vec3, Mins(value, m.positions), Maxs(value, m.positions))
    && (p.normal.Some? <==> m.normals.Some?) && (p.indices.Some? <==> m.indices.Some?)
    && (m.normals.Some? ==> Covers(b, p.normal.value, m.normals.value))
    && (m.normals.Some? ==>
          b.accessors[p.normal.value] == Accessor(p.normal.value, FLOAT, |m.positions| / 3, Vec3, [], []))
    && (m.indices.Some? ==> Covers(b, p.indices.value, m.indices.value))
    && (m.indices.Some? ==>
          b.accessors[p.indices.value] == Accessor(p.indices.value, UNSIGNED_INT, |m.indices.value|, Scalar, [], []))
    && b.views[p.position].target == ARRAY_BUFFER
    && (m.normals.Some? ==> b.views[p.normal.value].target == ARRAY_BUFFER)
    && (m.indices.Some? ==> b.views[p.indices.value].target == ELEMENT_ARRAY_BUFFER)
    && p.material < |b.materials| && b.materials[p.material] == if m.color.Some? then m.color.value else DEFAULT_COLOR
  }

  lemma DescribedGrown(value: Values, a: Build, b: Build, p: Primitive, m: Mesh)
    requires Described(value, a, p, m) && Grown(a, b)
    ensures Described(value, b, p, m)
  {
    hide Covers, Mins, Maxs;
    CoversGrown(a, b, p.position, m.positions);
    CoversInside(a, p.position, m.positions);
    if m.normals.Some? {
      CoversGrown(a, b, p.normal.value, m.normals.value);
      CoversInside(a, p.normal.value, m.normals.value);
    }
    if m.indices.Some? {
      CoversGrown(a, b, p.indices.value, m.indices.value);
      CoversInside(a, p.indices.value, m.indices.value);
    }
  }

  lemma CoversInside(b: Build, k: nat, words: seq<Word>)
    requires Covers(b, k, words)
    ensures k < |b.accessors| && k < |b.views|
  {
  }

  lemma MeshDescribed(value: Values, b: Build, m: Mesh)
    requires LaidOut(b) && |b.meshes| == |b.materials|
    ensures var c := AddMesh(value, b, m);
      && Grown(b, c) && |c.meshes| == |b.meshes| + 1 == |c.materials|
      && Described(value, c, c.meshes[|b.meshes|], m)
  {
    hide LaidOut, AddArray, Covers, Mins, Maxs, Grown;
    SameCounts(b);
    var p := AddPositions(value, b, m);
    ArrayCovers(b, m.positions, ARRAY_BUFFER, FLOAT, |m.positions| / 3, Vec3, Mins(value, m.positions),
                Maxs(value, m.positions));
    ArrayLaidOut(b, m.positions, ARRAY_BUFFER, FLOAT, |m.positions| / 3, Vec3, Mins(value, m.positions),
                 Maxs(value, m.positions));
    var n := AddNormals(p, m);
    GrownSelf(p);
    if m.normals.Some? {
      ArrayCovers(p, m.normals.value, ARRAY_BUFFER, FLOAT, |m.positions| / 3, Vec3, [], []);
      ArrayLaidOut(p, m.normals.value, ARRAY_BUFFER, FLOAT, |m.positions| / 3, Vec3, [], []);
    }
    NoPadding(n);
    var i := AddIndices(n, m);
    GrownSelf(n);
    if m.indices.Some? {
      ArrayCovers(n, m.indices.value, ELEMENT_ARRAY_BUFFER, UNSIGNED_INT, |m.indices.value|, Scalar, [], []);
    }
    PutTogether(value, b, p, n, i, m);
  }

  lemma SameCounts(b: Build)
    requires LaidOut(b)
    ensures |b.views| == |b.accessors|
  {
  }

  lemma GrownSelf(b: Build)
    ensures Grown(b, b)
  {
  }

  lemma PutTogether(value: Values, b: Build, p: Build, n: Build, i: Build, m: Mesh)
    requires p == AddPositions(value, b, m) && n == AddNormals(p, m) && i == AddIndices(n, m)
    requires Grown(b, p) && Grown(p, n) && Grown(n, i) && |b.meshes| == |b.materials|
    requires |b.views| == |b.accessors| && |p.views| == |p.accessors| && |n.views| == |n.accessors|
    requires i.meshes == b.meshes && i.materials == b.materials
    requires Covers(p, |b.views|, m.positions)
    requires p.accessors[|b.views|]
        == Accessor(|b.views|, FLOAT, |m.positions| / 3, Vec3, Mins(value, m.positions), Maxs(value, m.positions))
    requires m.normals.Some? ==> Covers(n, |p.views|, m.normals.value)
    requires p.views[|b.views|].target == ARRAY_BUFFER
    requires m.normals.Some? ==> n.views[|p.views|].target == ARRAY_BUFFER
    requires m.indices.Some? ==> i.views[|n.views|].target == ELEMENT_ARRAY_BUFFER
    requires m.normals.Some? ==> n.accessors[|p.views|] == Accessor(|p.views|, FLOAT, |m.positions| / 3, Vec3, [], [])
    requires m.indices.Some? ==> Covers(i, |n.views|, m.indices.value)
    requires m.indices.Some? ==>
      i.accessors[|n.views|] == Accessor(|n.views|, UNSIGNED_INT, |m.indices.value|, Scalar, [], [])
    ensures var c := AddMesh(value, b, m);
      && Grown(b, c) && |c.meshes| == |b.meshes| + 1 == |c.materials|
      && Described(value, c, c.meshes[|b.meshes|], m)
  {
    hide AddArray, AddPositions, AddNormals, AddIndices, CoversAt, Mins, Maxs;
    var c := AddMesh(value, b, m);
    assert Grown(i, c);
    assert Grown(n, c) && Grown(p, c) && Grown(b, c);
    CoversGrown(p, c, |b.views|, m.positions);
    if m.normals.Some? { CoversGrown(n, c, |p.views|, m.normals.value); }
    if m.indices.Some? { CoversGrown(i, c, |n.views|, m.indices.value); }
  }

  lemma {:induction false} AllDescribed(value: Values, meshes: seq<Mesh>)
    ensures var b := AddMeshes(value, meshes);
      && |b.meshes| == |meshes| == |b.materials|
      && forall i :: 0 <= i < |meshes| ==> Described(value, b, b.meshes[i], meshes[i])
  {
    hide AddMesh, Described;
    if meshes != [] {
      var n := |meshes| - 1;
      var a := AddMeshes(value, meshes[..n]);
      AllDescribed(value, meshes[..n]);
      MeshesLaidOut(value, meshes[..n]);
      MeshDescribed(value, a, meshes[n]);
      var b := AddMeshes(value, meshes);
      forall i | 0 <= i < |meshes| ensures Described(value, b, b.meshes[i], meshes[i]) {
        if i < n {
          assert meshes[..n][i] == meshes[i] && b.meshes[i] == a.meshes[i];
          DescribedGrown(value, a, b, b.meshes[i], meshes[i]);
        }
      }
    }
  }

  lemma ReadCovered(b: Build, total: int, bin: seq<Byte>, k: nat, words: seq<Word>)
    requires Covers(b, k, words) && b.bytes <= bin
    ensures var a, n := b.accessors[k], b.accessors[k].count * Components(b.accessors[k].shape);
      ReadAccessor(DocumentOf(b, total), bin, k) == if n > |words| then None else Some(words[..n])
  {
    hide Bytes, Words;
    var v, a := b.views[k], b.accessors[k];
    var n := a.count * Components(a.shape);
    if n <= |words| {
      BytesPrefix(words, n);
      assert bin[v.offset..v.offset + v.length] == b.bytes[v.offset..v.offset + v.length];
      assert bin[v.offset..v.offset + 4 * n] == bin[v.offset..v.offset + v.length][..4 * n];
      WordsReadBack(bin, v.offset, words[..n]);
    }
  }

  lemma {:induction false} BytesPrefix(words: seq<Word>, n: nat)
    requires n <= |words|
    ensures Bytes(words)[..4 * n] == Bytes(words[..n])
  {
    hide WordBytes;
    if n < |words| {
      BytesPrefix(words[..|words| - 1], n);
      assert words[..|words| - 1][..n] == words[..n];
      assert Bytes(words)[..4 * n] == Bytes(words[..|words| - 1])[..4 * n];
    } else {
      assert words[..n] == words;
      assert Bytes(words)[..4 * n] == Bytes(words);
    }
  }

  /** A reader of the written document recovers the positions and the indices
      of every mesh; the normals exactly if there are as many as positions. */
  lemma ArraysReadBack(value: Values, meshes: seq<Mesh>, total: int, bin: seq<Byte>, i: nat)
    requires i < |meshes| && |meshes[i].positions| % 3 == 0
    requires AddMeshes(value, meshes).bytes <= bin
    ensures var d := DocumentOf(AddMeshes(value, meshes), total);
      && |d.meshes| == |meshes|
      && ReadAccessor(d, bin, d.meshes[i].position) == Some(meshes[i].positions)
      && (d.meshes[i].indices.None? <==> meshes[i].indices.None?)
      && (meshes[i].indices.Some? ==> ReadAccessor(d, bin, d.meshes[i].indices.value) == meshes[i].indices)
      && (d.meshes[i].normal.None? <==> meshes[i].normals.None?)
      && (meshes[i].normals.Some? ==>
            (ReadAccessor(d, bin, d.meshes[i].normal.value) == meshes[i].normals
             <==> |meshes[i].normals.value| == |meshes[i].positions|))
  {
    hide AddMeshes, Covers, ReadAccessor, Mins, Maxs;
    AllDescribed(value, meshes);
    var b, m := AddMeshes(value, meshes), meshes[i];
    var p := b.meshes[i];
    assert Described(value, b, p, m);
    ReadCovered(b, total, bin, p.position, m.positions);
    assert m.positions[..|m.positions|] == m.positions;
    if m.indices.Some? {
      var l := m.indices.value;
      ReadCovered(b, total, bin, p.indices.value, l);
      assert l[..|l|] == l;
    }
    if m.normals.Some? {
      var l := m.normals.value;
      ReadCovered(b, total, bin, p.normal.value, l);
      assert l[..|l|] == l;
    }
  }

  /** The chunks of a written file read back, and its length field is right. */
  lemma FileReadsBack(json: seq<Byte>, bin: seq<Byte>)
    requires 28 + |json| + |bin| < 0x1_0000_0000
    ensures ReadFile(File(json, bin)) == Some(Chunks(json, bin))
  {
    hide WordBytes, WordAt;
    var b, n := File(json, bin), |json|;
    WordAtSlice(b, 0, 0x46546C67);
    WordAtSlice(b, 4, 2);
    WordAtSlice(b, 8, |b|);
    WordAtSlice(b, 12, n);
    WordAtSlice(b, 16, JSON);
    WordAtSlice(b, 20 + n, |bin|);
    WordAtSlice(b, 24 + n, BIN);
    assert b[20..20 + n] == json && b[28 + n..] == bin;
  }

  /** The bytes at the start of the file and the names of its chunks. */
  lemma FileBegins(json: seq<Byte>, bin: seq<Byte>)
    requires 28 + |json| + |bin| < 0x1_0000_0000
    ensures FileStarts(File(json, bin), |json|)
  {
    hide WordBytes;
    var b, n := File(json, bin), |json|;
    NamesOfChunks();
    assert b[..4] == WordBytes(0x46546C67) && b[4..8] == WordBytes(2);
    assert b[..8] == b[..4] + b[4..8];
    assert b[16..20] == WordBytes(JSON) && b[24 + n..28 + n] == WordBytes(BIN);
  }

  /** `glTF` and version 2, and the two chunk names, byte by byte. */
  predicate FileStarts(b: seq<Byte>, n: nat) {
    && 28 + n <= |b| && b[..8] == [0x67, 0x6C, 0x54, 0x46, 2, 0, 0, 0]
    && b[16..20] == [0x4A, 0x53, 0x4F, 0x4E] && b[24 + n..28 + n] == [0x42, 0x49, 0x4E, 0]
  }

  lemma NamesOfChunks()
    ensures WordBytes(0x46546C67) == [0x67, 0x6C, 0x54, 0x46] && WordBytes(2) == [2, 0, 0, 0]
    ensures WordBytes(JSON) == [0x4A, 0x53, 0x4F, 0x4E] && WordBytes(BIN) == [0x42, 0x49, 0x4E, 0]
  {
  }

  lemma WordAtSlice(b: seq<Byte>, at: nat, w: Word)
    requires at + 4 <= |b| && b[at..at + 4] == WordBytes(w)
    ensures WordAt(b, at) == w
  {
    WordAtIn(b, at, w);
  }

  // ---- the writer

  lemma PaddedParts(b: Build)
    ensures PadTo4(b).accessors == b.accessors
  {
  }

  datatype Result<T> = Ok(value: T) | RangeError

  function Joined(parts: seq<seq<Byte>>): seq<Byte> {
    if parts == [] then [] else Joined(parts[..|parts| - 1]) + parts[|parts| - 1]
  }

  lemma JoinedSnoc(parts: seq<seq<Byte>>, p: seq<Byte>)
    ensures Joined(parts + [p]) == Joined(parts) + p
  {
    assert (parts + [p])[..|parts|] == parts;
  }

  lemma JoinedStep(parts: seq<seq<Byte>>, k: nat)
    requires k < |parts|
    ensures Joined(parts[..k + 1]) == Joined(parts[..k]) + parts[k]
  {
    assert parts[..k + 1] == parts[..k] + [parts[k]];
    JoinedSnoc(parts[..k], parts[k]);
  }

  lemma DropZeros(n: nat, k: nat)
    requires k <= n
    ensures |Zeros(n)| == n && Zeros(n)[k..] == Zeros(n - k)
  {
  }

  lemma {:induction false} JoinedPrefix(parts: seq<seq<Byte>>, k: nat)
    requires k <= |parts|
    ensures |Joined(parts[..k])| <= |Joined(parts)|
  {
    if k < |parts| {
      JoinedPrefix(parts[..|parts| - 1], k);
      assert parts[..|parts| - 1][..k] == parts[..k];
    } else {
      assert parts[..k] == parts;
    }
  }

  /** `set` of a typed array. */
  method CopyInto(target: array<Byte>, part: seq<Byte>, off: nat)
    requires off + |part| <= target.Length
    modifies target
    ensures target[..off] == old(target[..off]) && target[off..off + |part|] == part
    ensures target[off + |part|..] == old(target[off + |part|..])
  {
    for i := 0 to |part|
      invariant target[..off] == old(target[..off]) && target[off..off + i] == part[..i]
      invariant target[off + |part|..] == old(target[off + |part|..])
    {
      target[off + i] := part[i];
      assert target[off..off + i + 1] == target[off..off + i] + [part[i]];
    }
  }

  class GlbWriter {
    var bufParts: seq<seq<Byte>>
    var byteOffset: nat
    var bufferViews: seq<View>
    var accessors: seq<Accessor>
    var gltfMeshes: seq<Primitive>
    var materials: seq<(real, real, real)>

    ghost predicate Valid()
      reads this
    {
      byteOffset == |Joined(bufParts)|
    }

    ghost function State(): Build
      reads this
    {
      Build(Joined(bufParts), bufferViews, accessors, gltfMeshes, materials)
    }

    constructor ()
      ensures Valid() && State() == EMPTY
    {
      bufParts, byteOffset, bufferViews, accessors, gltfMeshes, materials := [], 0, [], [], [], [];
    }

    method PushBytes(bytes: seq<Byte>)
      requires Valid()
      modifies this`bufParts, this`byteOffset
      ensures Valid() && Joined(bufParts) == Joined(old(bufParts)) + bytes
    {
      JoinedSnoc(bufParts, bytes);
      bufParts := bufParts + [bytes];
      byteOffset := byteOffset + |bytes|;
    }

    method PadPart()
      requires Valid()
      modifies this`bufParts, this`byteOffset
      ensures Valid() && State() == PadTo4(old(State()))
    {
      var r := byteOffset % 4;
      if r == 0 { return; }
      PushBytes(Zeros(4 - r));
    }

    method PushArray(words: seq<Word>, target: nat, component: nat, count: nat, shape: Shape, min: seq<Bound>,
                     max: seq<Bound>)
      returns (accessor: nat)
      requires Valid()
      modifies this`bufParts, this`byteOffset, this`bufferViews, this`accessors
      ensures Valid() && State() == AddArray(old(State()), words, target, component, count, shape, min, max)
      ensures accessor == |old(accessors)|
    {
      var view := |bufferViews|;
      bufferViews := bufferViews + [View(byteOffset, 4 * |words|, target)];
      PushBytes(Bytes(words));
      accessor := |accessors|;
      accessors := accessors + [Accessor(view, component, count, shape, min, max)];
    }

    method PushMesh(value: Values, m: Mesh)
      requires Valid() && |m.positions| % 3 == 0
      modifies this
      ensures Valid() && State() == AddMesh(value, old(State()), m)
    {
      hide Mins, Maxs, AddArray, PadTo4, Joined;
      var min, max := Bounds(value, m.positions);
      var vertCount := |m.positions| / 3;
      var position := PushArray(m.positions, ARRAY_BUFFER, FLOAT, vertCount, Vec3, min, max);
      ghost var p := State();
      assert p == AddPositions(value, old(State()), m);
      var normal, indices := None, None;
      if m.normals.Some? {
        var k := PushArray(m.normals.value, ARRAY_BUFFER, FLOAT, vertCount, Vec3, [], []);
        normal := Some(k);
      }
      ghost var n := State();
      assert n == AddNormals(p, m);
      if m.indices.Some? {
        PadPart();
        var k := PushArray(m.indices.value, ELEMENT_ARRAY_BUFFER, UNSIGNED_INT, |m.indices.value|, Scalar, [], []);
        indices := Some(k);
        assert k == |PadTo4(n).accessors|;
      }
      PaddedParts(n);
      assert State() == AddIndices(n, m);
      var material := |materials|;
      materials := materials + [if m.color.Some? then m.color.value else DEFAULT_COLOR];
      gltfMeshes := gltfMeshes + [Primitive(position, normal, indices, material)];
    }

    /** The parts one behind the other in a zeroed buffer of the aligned size. */
    method BinaryBuffer(totalBin: nat) returns (bin: seq<Byte>)
      requires Valid() && byteOffset <= totalBin
      ensures bin == Joined(bufParts) + Zeros(totalBin - byteOffset)
    {
      var binBuf := new Byte[totalBin](_ => 0);
      var off := 0;
      for k := 0 to |bufParts|
        invariant off == |Joined(bufParts[..k])| && off <= totalBin
        invariant binBuf[..off] == Joined(bufParts[..k])
        invariant binBuf[off..] == Zeros(totalBin - off)
      {
        hide Joined, Zeros;
        var part := bufParts[k];
        JoinedStep(bufParts, k);
        JoinedPrefix(bufParts, k + 1);
        DropZeros(totalBin - off, |part|);
        assert binBuf[off..][|part|..] == binBuf[off + |part|..];
        CopyInto(binBuf, part, off);
        assert binBuf[..off + |part|] == binBuf[..off] + binBuf[off..off + |part|];
        off := off + |part|;
      }
      assert bufParts[..|bufParts|] == bufParts;
      assert binBuf[..] == binBuf[..off] + binBuf[off..];
      bin := binBuf[..];
    }
  }

  /** The text of the document of these meshes. */
  function JsonOf(value: Values, meshes: seq<Mesh>, stringify: Document -> seq<Byte>): seq<Byte> {
    var b := AddMeshes(value, meshes);
    stringify(DocumentOf(b, Align4(|b.bytes|)))
  }

  /** Both chunks round up without overflow and the length field can hold the sum. */
  predicate Fits(bytes: seq<Byte>, json: seq<Byte>) {
    && |bytes| + 3 < 0x8000_0000 && |json| + 3 < 0x8000_0000
    && 28 + |PadSpaces(json)| + |PadZeros(bytes)| < 0x1_0000_0000
  }

  method BuildGlb(value: Values, meshes: seq<Mesh>, stringify: Document -> seq<Byte>) returns (r: Result<seq<Byte>>)
    requires forall m :: m in meshes ==> |m.positions| % 3 == 0
    ensures r.Ok? <==> Fits(AddMeshes(value, meshes).bytes, JsonOf(value, meshes, stringify))
    ensures r.Ok? ==> r.value == File(PadSpaces(JsonOf(value, meshes, stringify)),
                                      PadZeros(AddMeshes(value, meshes).bytes))
  {
    hide AddMesh, File;
    var w := new GlbWriter();
    for k := 0 to |meshes|
      invariant w.Valid() && w.State() == AddMeshes(value, meshes[..k])
      invariant fresh(w)
    {
      assert meshes[..k + 1][..k] == meshes[..k];
      w.PushMesh(value, meshes[k]);
    }
    assert meshes[..|meshes|] == meshes;
    var totalBin := Align4(w.byteOffset);
    Align4Exact(w.byteOffset);
    if totalBin < w.byteOffset { return RangeError; }
    var binBuf := w.BinaryBuffer(totalBin);
    var jsonBuf := stringify(Document(w.bufferViews, w.accessors, w.gltfMeshes, w.materials, totalBin));
    Align4Exact(|jsonBuf|);
    if Align4(|jsonBuf|) < |jsonBuf| { return RangeError; }
    var jsonPad := jsonBuf + Spaces(Align4(|jsonBuf|) - |jsonBuf|);
    var totalLen := 12 + 8 + |jsonPad| + 8 + |binBuf|;
    if totalLen >= 0x1_0000_0000 { return RangeError; }
    FileIs(jsonPad, binBuf);
    r := Ok(WordBytes(0x46546C67) + WordBytes(2) + WordBytes(totalLen)
            + (WordBytes(|jsonPad|) + WordBytes(JSON)) + jsonPad + (WordBytes(|binBuf|) + WordBytes(BIN)) + binBuf);
  }

  lemma FileIs(json: seq<Byte>, bin: seq<Byte>)
    requires 28 + |json| + |bin| < 0x1_0000_0000
    ensures File(json, bin) == WordBytes(0x46546C67) + WordBytes(2) + WordBytes(28 + |json| + |bin|)
      + (WordBytes(|json|) + WordBytes(JSON)) + json + (WordBytes(|bin|) + WordBytes(BIN)) + bin
  {
    hide WordBytes;
  }

  /** The document and the buffer as a reader of the file sees them. */
  predicate Inside(d: Document, bin: seq<Byte>) {
    && d.bufferLength == |bin| && |bin| % 4 == 0
    && (forall k :: 0 <= k < |d.views| ==> ViewInside(d.views[k], |bin|))
    && (forall k, l :: 0 <= k < l < |d.views| ==> EndsBefore(d.views[k], d.views[l]))
  }

  /** Every file that is written reads back: its chunks are the padded document
      and a buffer in which the views are ordered, disjoint, aligned and inside. */
  lemma WrittenFileReadsBack(value: Values, meshes: seq<Mesh>, stringify: Document -> seq<Byte>)
    requires Fits(AddMeshes(value, meshes).bytes, JsonOf(value, meshes, stringify))
    ensures var text, bin := JsonOf(value, meshes, stringify), PadZeros(AddMeshes(value, meshes).bytes);
      var d, json := DocumentOf(AddMeshes(value, meshes), |bin|), PadSpaces(text);
      && ReadFile(File(json, bin)) == Some(Chunks(json, bin)) && |File(json, bin)| % 4 == 0
      && FileStarts(File(json, bin), |json|)
      && text == stringify(d) && text <= json && |json| < |text| + 4 && |json| % 4 == 0
      && forall k :: |text| <= k < |json| ==> json[k] == 0x20
    ensures var bin := PadZeros(AddMeshes(value, meshes).bytes);
      Inside(DocumentOf(AddMeshes(value, meshes), |bin|), bin)
  {
    hide AddMesh, AddMeshes, WordBytes, WordAt, ReadFile, File, PadSpaces, PadZeros, LaidOut, Inside, Align4,
         DocumentOf, FileStarts;
    var b, text := AddMeshes(value, meshes), JsonOf(value, meshes, stringify);
    assert text == stringify(DocumentOf(b, Align4(|b.bytes|)));
    hide JsonOf;
    Padded(b.bytes);
    Padded(text);
    FileReadsBack(PadSpaces(text), PadZeros(b.bytes));
    FileBegins(PadSpaces(text), PadZeros(b.bytes));
    FileLength(PadSpaces(text), PadZeros(b.bytes));
    MeshesLaidOut(value, meshes);
    LaidOutInside(b, PadZeros(b.bytes));
  }

  lemma LaidOutInside(b: Build, bin: seq<Byte>)
    requires LaidOut(b) && b.bytes <= bin && |bin| % 4 == 0
    ensures Inside(DocumentOf(b, |bin|), bin)
  {
  }

  lemma Padded(b: seq<Byte>)
    requires |b| + 3 < 0x8000_0000
    ensures |b| <= Align4(|b|) < |b| + 4 && Align4(|b|) % 4 == 0
    ensures |PadSpaces(b)| == |PadZeros(b)| == Align4(|b|) && b <= PadSpaces(b) && b <= PadZeros(b)
    ensures forall k :: |b| <= k < |PadSpaces(b)| ==> PadSpaces(b)[k] == 0x20
  {
    Align4Exact(|b|);
  }

  /** And every mesh finds its arrays in that buffer. */
  lemma WrittenMeshesReadBack(value: Values, meshes: seq<Mesh>)
    requires forall m :: m in meshes ==> |m.positions| % 3 == 0
    ensures var bin := PadZeros(AddMeshes(value, meshes).bytes);
      forall i :: 0 <= i < |meshes| ==> MeshReads(DocumentOf(AddMeshes(value, meshes), |bin|), bin, i, meshes[i])
  {
    hide AddMesh, AddMeshes, ReadAccessor;
    var b := AddMeshes(value, meshes);
    var bin := PadZeros(b.bytes);
    forall i | 0 <= i < |meshes| ensures MeshReads(DocumentOf(b, |bin|), bin, i, meshes[i]) {
      assert meshes[i] in meshes;
      ArraysReadBack(value, meshes, |bin|, bin, i);
    }
  }

  lemma FileLength(json: seq<Byte>, bin: seq<Byte>)
    requires 28 + |json| + |bin| < 0x1_0000_0000
    ensures |File(json, bin)| == 28 + |json| + |bin|
  {
    hide WordBytes;
  }

  /** Mesh `i` of the document reads as `m`; its normals if there are as many
      as positions. */
  predicate MeshReads(d: Document, bin: seq<Byte>, i: nat, m: Mesh) {
    && i < |d.meshes| && ReadAccessor(d, bin, d.meshes[i].position) == Some(m.positions)
    && (d.meshes[i].indices.None? <==> m.indices.None?)
    && (m.indices.Some? ==> ReadAccessor(d, bin, d.meshes[i].indices.value) == m.indices)
    && (d.meshes[i].normal.None? <==> m.normals.None?)
    && (m.normals.Some? && |m.normals.value| == |m.positions| ==>
          ReadAccessor(d, bin, d.meshes[i].normal.value) == m.normals)
  }

  // ---- what the document says, of the meshes alone

  function Component(value: Values, p: seq<Word>, k: nat, axis: nat): real
    requires axis < 3 && k < |p| / 3
  {
    value(p[3 * k + axis])
  }

  /** Some vertex attains `b` and none lies below; Infinity without vertices. */
  predicate LowerBound(value: Values, p: seq<Word>, axis: nat, b: Bound)
    requires axis < 3
  {
    if |p| / 3 == 0 then b == Above else
      && b.At? && (exists k :: 0 <= k < |p| / 3 && Component(value, p, k, axis) == b.x)
      && forall k :: 0 <= k < |p| / 3 ==> b.x <= Component(value, p, k, axis)
  }

  /** Some vertex attains `b` and none lies above; -Infinity without vertices. */
  predicate UpperBound(value: Values, p: seq<Word>, axis: nat, b: Bound)
    requires axis < 3
  {
    if |p| / 3 == 0 then b == Below else
      && b.At? && (exists k :: 0 <= k < |p| / 3 && Component(value, p, k, axis) == b.x)
      && forall k :: 0 <= k < |p| / 3 ==> Component(value, p, k, axis) <= b.x
  }

  predicate Box(value: Values, p: seq<Word>, min: seq<Bound>, max: seq<Bound>) {
    && |min| == 3 == |max|
    && forall axis :: 0 <= axis < 3 ==> LowerBound(value, p, axis, min[axis]) && UpperBound(value, p, axis, max[axis])
  }

  /** Accessor `k` is of this kind, its view has this target (34962 for vertex data,
      34963 for indices), and its elements are of type 5126 (float) or 5125 (unsigned). */
  predicate Kind(d: Document, k: nat, component: nat, shape: Shape, count: nat, target: nat) {
    && k < |d.accessors| && d.accessors[k].view < |d.views|
    && d.accessors[k].component == component && d.accessors[k].shape == shape && d.accessors[k].count == count
    && d.views[d.accessors[k].view].target == target
  }

  predicate Says(value: Values, d: Document, i: nat, m: Mesh) {
    && i < |d.meshes|
    && var p := d.meshes[i];
    && Kind(d, p.position, 5126, Vec3, |m.positions| / 3, 34962)
    && Box(value, m.positions, d.accessors[p.position].min, d.accessors[p.position].max)
    && (p.normal.Some? <==> m.normals.Some?) && (p.indices.Some? <==> m.indices.Some?)
    && (p.normal.Some? ==> Kind(d, p.normal.value, 5126, Vec3, |m.positions| / 3, 34962))
    && (p.indices.Some? ==> Kind(d, p.indices.value, 5125, Scalar, |m.indices.value|, 34963))
    && p.material < |d.materials|
    && d.materials[p.material] == if m.color.Some? then m.color.value else (0.357, 0.608, 0.965)
  }

  lemma BoxExact(value: Values, p: seq<Word>)
    ensures Box(value, p, Mins(value, p), Maxs(value, p))
  {
    hide Least, Greatest;
    var n := |p| / 3;
    forall axis: nat | axis < 3
      ensures LowerBound(value, p, axis, Mins(value, p)[axis]) && UpperBound(value, p, axis, Maxs(value, p)[axis])
    {
      LeastExact(value, p, axis, n);
      GreatestExact(value, p, axis, n);
      forall k | 0 <= k < n ensures Coordinate(value, p, k, axis) == At(Component(value, p, k, axis)) {
      }
    }
  }

  /** What the document says of every mesh. */
  lemma DocumentSays(value: Values, meshes: seq<Mesh>, total: int)
    ensures |DocumentOf(AddMeshes(value, meshes), total).meshes| == |meshes|
    ensures forall i :: 0 <= i < |meshes| ==> Says(value, DocumentOf(AddMeshes(value, meshes), total), i, meshes[i])
  {
    hide AddMeshes, Mins, Maxs, Box, CoversAt;
    AllDescribed(value, meshes);
    var b := AddMeshes(value, meshes);
    forall i | 0 <= i < |meshes| ensures Says(value, DocumentOf(b, total), i, meshes[i]) {
      BoxExact(value, meshes[i].positions);
      assert Described(value, b, b.meshes[i], meshes[i]);
    }
  }
}
