/** The ordered key layout: what a namespace scan and a range read of the key-value store return.

    A path is a sequence of hex strings; its key pads each to 64 characters and joins them with
    ':'.  The store orders keys as strings. */
module DatabaseKeys {
  const WIDTH: nat := 64

  type Path = seq<string>

  // ---------- strings ----------

  /** The order of the store's keys. */
  predicate Le(a: string, b: string) {
    a == [] || (b != [] && (a[0] < b[0] || (a[0] == b[0] && Le(a[1..], b[1..]))))
  }

  ghost predicate Below(s: string, c: char) {
    forall i :: 0 <= i < |s| ==> s[i] < c
  }

  lemma {:induction false} LeAppended(a: string, b: string)
    ensures Le(a, a + b)
  {
    if a != [] {
      assert (a + b)[1..] == a[1..] + b;
      LeAppended(a[1..], b);
    }
  }

  /** A common prefix does not matter. */
  lemma {:induction false} LePrefixed(prefix: string, a: string, b: string)
    ensures Le(prefix + a, prefix + b) <==> Le(a, b)
  {
    if prefix == [] {
      assert prefix + a == a && prefix + b == b;
    } else {
      assert (prefix + a)[1..] == prefix[1..] + a && (prefix + b)[1..] == prefix[1..] + b;
      LePrefixed(prefix[1..], a, b);
    }
  }

  lemma {:induction false} LeAntisymmetric(a: string, b: string)
    requires Le(a, b) && Le(b, a)
    ensures a == b
  {
    if a != [] {
      LeAntisymmetric(a[1..], b[1..]);
      assert a == [a[0]] + a[1..] && b == [b[0]] + b[1..];
    }
  }

  /** Whatever lies between two strings with a common prefix has that prefix. */
  lemma {:induction false} BetweenHasPrefix(prefix: string, low: string, high: string, key: string)
    requires Le(prefix + low, key) && Le(key, prefix + high)
    ensures prefix <= key
  {
    if prefix != [] {
      assert (prefix + low)[1..] == prefix[1..] + low && (prefix + high)[1..] == prefix[1..] + high;
      BetweenHasPrefix(prefix[1..], low, high, key[1..]);
      assert prefix == [prefix[0]] + prefix[1..] && key == [key[0]] + key[1..];
    }
  }

  /** With every character below '~', the keys from `prefix` to `prefix~` are those it begins. */
  lemma {:induction false} TildeRange(prefix: string, key: string)
    requires Below(key, '~')
    ensures Le(prefix, key) && Le(key, prefix + "~") <==> prefix <= key
  {
    if prefix <= key {
      var rest := key[|prefix|..];
      assert key == prefix + rest;
      LeAppended(prefix, rest);
      LePrefixed(prefix, rest, "~");
      assert rest != [] ==> rest[0] < '~';
    } else if Le(prefix, key) && Le(key, prefix + "~") {
      assert prefix + [] == prefix;
      BetweenHasPrefix(prefix, [], "~", key);
    }
  }

  // ---------- paths ----------

  function Zeros(count: nat): (r: string)
    ensures |r| == count
  {
    seq(count, _ => '0')
  }

  /** `padStart(64, '0')` */
  function PadStart(element: string): (r: string)
    ensures |r| >= WIDTH
  {
    if |element| >= WIDTH then element else Zeros(WIDTH - |element|) + element
  }

  function PathToKey(path: Path): string {
    if path == [] then []
    else if |path| == 1 then PadStart(path[0])
    else PadStart(path[0]) + ":" + PathToKey(path[1..])
  }

  /** What the layout needs: elements of at most 64 characters, all below '~'. */
  ghost predicate ElementOk(element: string) {
    |element| <= WIDTH && Below(element, '~')
  }

  ghost predicate PathOk(path: Path) {
    forall i :: 0 <= i < |path| ==> ElementOk(path[i])
  }

  ghost predicate SameElementAt(a: Path, b: Path, i: nat)
    requires i < |a| && i < |b|
  {
    PadStart(a[i]) == PadStart(b[i])
  }

  /** `namespace` is an element-wise prefix of `path`, up to padding. */
  ghost predicate IsUnder(namespace: Path, path: Path) {
    |namespace| <= |path| && forall i :: 0 <= i < |namespace| ==> SameElementAt(namespace, path, i)
  }

  lemma {:induction false} KeyBelowTilde(path: Path)
    requires PathOk(path)
    ensures Below(PathToKey(path), '~')
  {
    if |path| > 1 {
      assert forall i :: 0 <= i < |path| - 1 ==> ElementOk(path[1..][i]);
      KeyBelowTilde(path[1..]);
    }
    assert path != [] ==> ElementOk(path[0]);
  }

  /** The first element of a key, and what follows it. */
  lemma {:induction false} KeyParts(path: Path)
    requires PathOk(path) && path != []
    ensures |PadStart(path[0])| == WIDTH && PathOk(path[1..])
    ensures PathToKey(path) == PadStart(path[0]) + if |path| == 1 then [] else ":" + PathToKey(path[1..])
  {
    assert ElementOk(path[0]);
    assert forall i :: 0 <= i < |path| - 1 ==> ElementOk(path[1..][i]);
    assert PadStart(path[0]) + [] == PadStart(path[0]);
  }

  lemma {:induction false} UnderParts(namespace: Path, path: Path)
    requires namespace != [] && path != []
    ensures IsUnder(namespace, path)
      <==> PadStart(namespace[0]) == PadStart(path[0]) && IsUnder(namespace[1..], path[1..])
  {
    if IsUnder(namespace, path) {
      assert SameElementAt(namespace, path, 0);
      forall i | 0 <= i < |namespace| - 1
        ensures SameElementAt(namespace[1..], path[1..], i)
      {
        assert SameElementAt(namespace, path, i + 1);
      }
    } else if PadStart(namespace[0]) == PadStart(path[0]) && IsUnder(namespace[1..], path[1..]) {
      forall i | 0 <= i < |namespace|
        ensures SameElementAt(namespace, path, i)
      {
        assert i > 0 ==> SameElementAt(namespace[1..], path[1..], i - 1);
      }
    }
  }

  /** Since every element is 64 wide, one key begins another exactly when its path does. */
  lemma {:induction false} KeyPrefixIff(namespace: Path, path: Path)
    requires PathOk(namespace) && PathOk(path)
    ensures PathToKey(namespace) <= PathToKey(path) <==> IsUnder(namespace, path)
  {
    if namespace != [] && path != [] {
      KeyParts(namespace);
      KeyParts(path);
      UnderParts(namespace, path);
      KeyPrefixIff(namespace[1..], path[1..]);
      var a, b := PathToKey(namespace), PathToKey(path);
      assert a[..WIDTH] == PadStart(namespace[0]) && b[..WIDTH] == PadStart(path[0]);
      if |namespace| > 1 {
        assert a == a[..WIDTH] + a[WIDTH..] && a[WIDTH..] == ":" + PathToKey(namespace[1..]);
        if |path| > 1 {
          assert b == b[..WIDTH] + b[WIDTH..] && b[WIDTH..] == ":" + PathToKey(path[1..]);
          assert a <= b <==> a[..WIDTH] == b[..WIDTH] && a[WIDTH..] <= b[WIDTH..];
          assert a[WIDTH..] <= b[WIDTH..] <==> PathToKey(namespace[1..]) <= PathToKey(path[1..]) by {
            assert a[WIDTH..][1..] == PathToKey(namespace[1..]) && b[WIDTH..][1..] == PathToKey(path[1..]);
          }
        }
      }
    } else if path == [] && namespace != [] {
      KeyParts(namespace);
    }
  }

  /** A key lies in [key(ns), key(ns)~] exactly when its path lies under ns. */
  lemma {:induction false} NamespaceExact(namespace: Path, path: Path)
    requires PathOk(namespace) && PathOk(path)
    ensures Le(PathToKey(namespace), PathToKey(path)) && Le(PathToKey(path), PathToKey(namespace) + "~")
      <==> IsUnder(namespace, path)
  {
    KeyBelowTilde(path);
    TildeRange(PathToKey(namespace), PathToKey(path));
    KeyPrefixIff(namespace, path);
  }

  /** Two paths have the same key exactly when they have the same padded elements. */
  lemma {:induction false} KeyDetermines(a: Path, b: Path)
    requires PathOk(a) && PathOk(b)
    ensures PathToKey(a) == PathToKey(b) <==> IsUnder(a, b) && IsUnder(b, a)
  {
    KeyPrefixIff(a, b);
    KeyPrefixIff(b, a);
    if PathToKey(a) <= PathToKey(b) && PathToKey(b) <= PathToKey(a) {
      assert PathToKey(a) == PathToKey(b)[..|PathToKey(a)|];
    }
  }

  // ---------- numbers ----------

  function HexDigit(d: nat): char
    requires d < 16
  {
    "0123456789abcdef"[d]
  }

  /** The last `width` hex digits of a number. */
  function Hex(n: nat, width: nat): (r: string)
    ensures |r| == width && Below(r, '~')
  {
    if width == 0 then [] else Hex(n / 16, width - 1) + [HexDigit(n % 16)]
  }

  function Pow16(width: nat): nat {
    if width == 0 then 1 else 16 * Pow16(width - 1)
  }

  lemma {:induction false} HexDigitsOrdered(c: nat, d: nat)
    requires c < 16 && d < 16
    ensures HexDigit(c) <= HexDigit(d) <==> c <= d
  {
  }

  lemma {:induction false} LeLast(a: string, b: string, c: char, d: char)
    requires |a| == |b|
    ensures Le(a + [c], b + [d]) <==> if a == b then c <= d else Le(a, b)
  {
    if a != [] {
      assert (a + [c])[1..] == a[1..] + [c] && (b + [d])[1..] == b[1..] + [d];
      assert a == [a[0]] + a[1..] && b == [b[0]] + b[1..];
      LeLast(a[1..], b[1..], c, d);
    }
  }

  /** Fixed-width hex orders as numbers do. */
  lemma {:induction false} HexOrdered(a: nat, b: nat, width: nat)
    requires a < Pow16(width) && b < Pow16(width)
    ensures Le(Hex(a, width), Hex(b, width)) <==> a <= b
    ensures Hex(a, width) == Hex(b, width) <==> a == b
  {
    if width > 0 {
      HexOrdered(a / 16, b / 16, width - 1);
      HexDigitsOrdered(a % 16, b % 16);
      HexDigitsOrdered(b % 16, a % 16);
      var x, y := Hex(a / 16, width - 1), Hex(b / 16, width - 1);
      LeLast(x, y, HexDigit(a % 16), HexDigit(b % 16));
      assert (x + [HexDigit(a % 16)])[..width - 1] == x && (y + [HexDigit(b % 16)])[..width - 1] == y;
      assert (x + [HexDigit(a % 16)])[width - 1] == HexDigit(a % 16)
        && (y + [HexDigit(b % 16)])[width - 1] == HexDigit(b % 16);
    }
  }

  // ---------- range reads ----------

  const FULL_32_BITS: nat := 0xffffffff

  function Element(n: nat): string {
    Hex(n, WIDTH)
  }

  function DataPrefix(root: Path, tree: nat): Path {
    root + [Element(tree), Element(FULL_32_BITS)]
  }

  function DataPath(root: Path, tree: nat, index: nat): Path {
    root + [Element(tree), Element(FULL_32_BITS), Element(index)]
  }

  function NodePath(root: Path, tree: nat, level: nat, index: nat): Path {
    root + [Element(tree), Element(level), Element(index)]
  }

  predicate Fits(n: nat) {
    n < Pow16(WIDTH)
  }

  lemma {:induction false} Pow16Grows(small: nat, large: nat)
    requires small <= large
    ensures Pow16(small) <= Pow16(large)
  {
    if small < large {
      Pow16Grows(small, large - 1);
    }
  }

  lemma {:induction false} FullFits()
    ensures Fits(FULL_32_BITS)
  {
    assert Pow16(4) == 65536;
    assert Pow16(8) == 16 * 16 * 16 * 16 * Pow16(4);
    Pow16Grows(8, WIDTH);
  }

  /** Data is stored apart from the nodes of every level below 2^32 - 1, and trees apart from each
      other: of all node and data paths exactly a tree's own data lies under its data prefix. */
  lemma {:induction false} LayoutSeparates(root: Path, tree: nat, other: nat, level: nat, index: nat)
    requires Fits(tree) && Fits(other) && Fits(level)
    ensures IsUnder(DataPrefix(root, tree), DataPath(root, other, index)) <==> tree == other
    ensures IsUnder(DataPrefix(root, tree), NodePath(root, other, level, index))
      <==> tree == other && level == FULL_32_BITS
  {
    FullFits();
    NodeUnderData(root, tree, other, level, index);
    NodeUnderData(root, tree, other, FULL_32_BITS, index);
    assert DataPath(root, other, index) == NodePath(root, other, FULL_32_BITS, index);
  }

  /** The data of a tree is stored as the nodes of the reserved level would be. */
  lemma {:induction false} NodeUnderData(root: Path, tree: nat, other: nat, level: nat, index: nat)
    requires Fits(tree) && Fits(other) && Fits(level)
    ensures IsUnder(DataPrefix(root, tree), NodePath(root, other, level, index))
      <==> tree == other && level == FULL_32_BITS
  {
    FullFits();
    HexOrdered(tree, other, WIDTH);
    HexOrdered(FULL_32_BITS, level, WIDTH);
    UnderPair(root, Element(tree), Element(FULL_32_BITS), Element(other), Element(level), Element(index));
  }

  lemma {:induction false} UnderPair(root: Path, a: string, b: string, x: string, y: string, z: string)
    requires |a| == |b| == |x| == |y| == WIDTH
    ensures IsUnder(root + [a, b], root + [x, y, z]) <==> a == x && b == y
  {
    var namespace, path := [a, b], [x, y, z];
    UnderCommon(root, namespace, path);
    UnderParts(namespace, path);
    UnderParts(namespace[1..], path[1..]);
    assert namespace[1..][1..] == [];
  }

  /** A common prefix does not matter. */
  lemma {:induction false} UnderCommon(root: Path, namespace: Path, path: Path)
    ensures IsUnder(root + namespace, root + path) <==> IsUnder(namespace, path)
  {
    if root == [] {
      assert root + namespace == namespace && root + path == path;
    } else {
      UnderParts(root + namespace, root + path);
      assert (root + namespace)[1..] == root[1..] + namespace && (root + path)[1..] == root[1..] + path;
      UnderCommon(root[1..], namespace, path);
    }
  }

  lemma {:induction false} KeyAppended(path: Path, element: string)
    requires path != []
    ensures PathToKey(path + [element]) == PathToKey(path) + ":" + PadStart(element)
  {
    var more := path + [element];
    assert more[0] == path[0] && more[1..] == path[1..] + [element];
    if |path| == 1 {
      assert more[1..] == [element];
    } else {
      KeyAppended(path[1..], element);
      Regrouped(PadStart(path[0]) + ":", PathToKey(path[1..]), ":", PadStart(element));
    }
  }

  lemma {:induction false} Regrouped(a: string, b: string, c: string, d: string)
    ensures a + (b + c + d) == a + b + c + d
  {
  }

  function DataKey(root: Path, tree: nat, index: nat): string {
    PathToKey(DataPath(root, tree, index))
  }

  lemma {:induction false} DataKeyParts(root: Path, tree: nat, index: nat)
    ensures DataKey(root, tree, index) == PathToKey(DataPrefix(root, tree)) + ":" + Element(index)
  {
    assert DataPath(root, tree, index) == DataPrefix(root, tree) + [Element(index)];
    KeyAppended(DataPrefix(root, tree), Element(index));
  }

  /** For data paths of a tree the string order is the order of the indices. */
  lemma {:induction false} DataKeysOrdered(root: Path, tree: nat, i: nat, j: nat)
    requires Fits(i) && Fits(j)
    ensures Le(DataKey(root, tree, i), DataKey(root, tree, j)) <==> i <= j
    ensures DataKey(root, tree, i) == DataKey(root, tree, j) <==> i == j
  {
    var prefix := PathToKey(DataPrefix(root, tree)) + ":";
    DataKeyParts(root, tree, i);
    DataKeyParts(root, tree, j);
    LePrefixed(prefix, Element(i), Element(j));
    LePrefixed(prefix, Element(j), Element(i));
    HexOrdered(i, j, WIDTH);
    HexOrdered(j, i, WIDTH);
  }

  ghost predicate BeforeAt(keys: seq<string>, i: nat, j: nat) {
    i < j < |keys| ==> Le(keys[i], keys[j]) && keys[i] != keys[j]
  }

  ghost predicate Ascending(keys: seq<string>) {
    forall i, j :: BeforeAt(keys, i, j)
  }

  /** A strictly ascending enumeration is determined by what it enumerates. */
  lemma {:induction false} OneEnumeration(a: seq<string>, b: seq<string>)
    requires Ascending(a) && Ascending(b) && forall k :: k in a <==> k in b
    ensures a == b
  {
    assert a != [] ==> a[0] in a && a[0] in b;
    assert b != [] ==> b[0] in b && b[0] in a;
    if a != [] && b != [] {
      var i: nat :| i < |b| && b[i] == a[0];
      var j: nat :| j < |a| && a[j] == b[0];
      assert BeforeAt(b, 0, i) && BeforeAt(a, 0, j);
      if i > 0 && j > 0 {
        LeAntisymmetric(a[0], b[0]);
      }
      assert a == [a[0]] + a[1..] && b == [b[0]] + b[1..];
      TailAscends(a);
      TailAscends(b);
      assert forall k :: k in a[1..] <==> k in a && k != a[0];
      assert forall k :: k in b[1..] <==> k in b && k != b[0];
      OneEnumeration(a[1..], b[1..]);
    }
  }

  lemma {:induction false} TailAscends(keys: seq<string>)
    requires Ascending(keys) && keys != []
    ensures Ascending(keys[1..]) && keys[0] !in keys[1..]
  {
    forall i: nat, j: nat
      ensures BeforeAt(keys[1..], i, j)
    {
      assert BeforeAt(keys, i + 1, j + 1);
    }
    forall j | 1 <= j < |keys|
      ensures keys[j] != keys[0]
    {
      assert BeforeAt(keys, 0, j);
    }
  }

  ghost predicate InRange(root: Path, tree: nat, start: nat, end: nat, key: string) {
    Le(DataKey(root, tree, start), key) && Le(key, DataKey(root, tree, end))
  }

  /** `keys` is what a stream over start..end delivers: the keys of the stored paths in that range,
      in the store's order. */
  ghost predicate IsStream(stored: set<Path>, root: Path, tree: nat, start: nat, end: nat, keys: seq<string>) {
    && Ascending(keys)
    && (forall p :: p in stored && InRange(root, tree, start, end, PathToKey(p)) ==> PathToKey(p) in keys)
    && (forall k :: k in keys ==> exists p :: p in stored && PathToKey(p) == k && InRange(root, tree, start, end, k))
  }

  /** The data stored for a tree: its first `length` leaves and nothing else under its data prefix. */
  ghost predicate HoldsLeaves(stored: set<Path>, root: Path, tree: nat, length: nat) {
    && (forall p :: p in stored ==> PathOk(p))
    && (forall i :: 0 <= i < length ==> DataPath(root, tree, i) in stored)
    && (forall p :: p in stored && IsUnder(DataPrefix(root, tree), p)
                    ==> exists i :: 0 <= i < length && p == DataPath(root, tree, i))
  }

  function Image(f: nat -> string, start: nat, stop: nat): seq<string> {
    seq(if start < stop then stop - start else 0, k requires 0 <= k => f(start + k))
  }

  ghost predicate GrowsAt(f: nat -> string, i: nat, j: nat) {
    Le(f(i), f(j)) && f(i) != f(j)
  }

  lemma {:induction false} ImageAscends(f: nat -> string, start: nat, stop: nat)
    requires forall i, j :: start <= i < j < stop ==> GrowsAt(f, i, j)
    ensures Ascending(Image(f, start, stop))
    ensures forall k :: k in Image(f, start, stop) <==> exists i :: start <= i < stop && k == f(i)
  {
    var keys := Image(f, start, stop);
    forall i: nat, j: nat
      ensures BeforeAt(keys, i, j)
    {
      if i < j < |keys| {
        var a, b := start + i, start + j;
        assert GrowsAt(f, a, b);
      }
    }
    forall i | start <= i < stop
      ensures f(i) in keys
    {
      var n := i - start;
      assert keys[n] == f(i);
    }
  }

  function LeafKeys(root: Path, tree: nat): nat -> string {
    (i: nat) => DataKey(root, tree, i)
  }

  /** The keys of the leaves from `start` on and before `stop`, in order. */
  function DataKeys(root: Path, tree: nat, start: nat, stop: nat): seq<string> {
    Image(LeafKeys(root, tree), start, stop)
  }

  /** What lies in the range of a tree's data lies under its data prefix. */
  lemma {:induction false} RangeIsUnder(root: Path, tree: nat, start: nat, end: nat, path: Path)
    requires PathOk(root) && PathOk(path) && InRange(root, tree, start, end, PathToKey(path))
    ensures IsUnder(DataPrefix(root, tree), path)
  {
    var prefix := PathToKey(DataPrefix(root, tree));
    DataKeyParts(root, tree, start);
    DataKeyParts(root, tree, end);
    BetweenHasPrefix(prefix + ":", Element(start), Element(end), PathToKey(path));
    assert prefix <= prefix + ":";
    KeyPrefixIff(DataPrefix(root, tree), path);
  }

  /** A range read returns precisely the leaves start..end that exist, in order. */
  lemma {:induction false} RangeExact(stored: set<Path>, root: Path, tree: nat, length: nat, start: nat, end: nat,
      keys: seq<string>)
    requires PathOk(root) && HoldsLeaves(stored, root, tree, length) && IsStream(stored, root, tree, start, end, keys)
    requires Fits(length) && Fits(start) && Fits(end)
    ensures keys == DataKeys(root, tree, start, if end < length then end + 1 else length)
  {
    var stop := if end < length then end + 1 else length;
    var f := LeafKeys(root, tree);
    var leaves := Image(f, start, stop);
    forall i, j | start <= i < j < stop
      ensures GrowsAt(f, i, j)
    {
      DataKeysOrdered(root, tree, i, j);
    }
    ImageAscends(f, start, stop);
    forall k | k in keys
      ensures k in leaves
    {
      var p :| p in stored && PathToKey(p) == k && InRange(root, tree, start, end, k);
      RangeIsUnder(root, tree, start, end, p);
      var i: nat :| i < length && p == DataPath(root, tree, i);
      DataKeysOrdered(root, tree, start, i);
      DataKeysOrdered(root, tree, i, end);
      assert k == f(i);
    }
    forall k | k in leaves
      ensures k in keys
    {
      var i: nat :| start <= i < stop && k == f(i);
      DataKeysOrdered(root, tree, start, i);
      DataKeysOrdered(root, tree, i, end);
      assert DataPath(root, tree, i) in stored && InRange(root, tree, start, end, k);
    }
    OneEnumeration(keys, leaves);
  }

  // ---------- namespaces ----------

  /** The store, reduced to the paths it holds. */
  class Database {
    var stored: set<Path>

    constructor ()
      ensures stored == {}
    {
      stored := {};
    }

    ghost predicate Valid()
      reads this
    {
      forall p :: p in stored ==> PathOk(p)
    }

    method Put(path: Path)
      requires Valid() && PathOk(path)
      modifies this
      ensures Valid() && stored == old(stored) + {path}
    {
      stored := stored + {path};
    }

    /** Deletes the keys from key(ns) to key(ns)~, which are the paths under the namespace. */
    method ClearNamespace(namespace: Path)
      requires Valid() && PathOk(namespace)
      modifies this
      ensures Valid() && forall p :: p in stored <==> p in old(stored) && !IsUnder(namespace, p)
    {
      var pathkey := PathToKey(namespace);
      forall p | p in stored
        ensures Le(pathkey, PathToKey(p)) && Le(PathToKey(p), pathkey + "~") <==> IsUnder(namespace, p)
      {
        NamespaceExact(namespace, p);
      }
      stored := set p | p in stored && !(Le(pathkey, PathToKey(p)) && Le(PathToKey(p), pathkey + "~"));
    }

    /** Counts the same keys. */
    method CountNamespace(namespace: Path) returns (count: nat)
      requires Valid() && PathOk(namespace)
      ensures count == |set p | p in stored && IsUnder(namespace, p)|
    {
      var pathkey := PathToKey(namespace);
      forall p | p in stored
        ensures Le(pathkey, PathToKey(p)) && Le(PathToKey(p), pathkey + "~") <==> IsUnder(namespace, p)
      {
        NamespaceExact(namespace, p);
      }
      var within := set p | p in stored && Le(pathkey, PathToKey(p)) && Le(PathToKey(p), pathkey + "~");
      assert within == set p | p in stored && IsUnder(namespace, p);
      return |within|;
    }
  }
}
