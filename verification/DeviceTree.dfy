/** Devicetrees and their flattened form: sections 5.4 to 5.6 of the Devicetree
    Specification v0.4. This is the reference for the scanners of kernel/src/dev/fdt.c. */
module DeviceTree {

  newtype Byte = b: int | 0 <= b < 256

  const BEGIN_NODE: nat := 1
  const END_NODE: nat := 2
  const PROP: nat := 3
  const NOP: nat := 4
  const END: nat := 9
  const WORD32: nat := 0x1_0000_0000

  // What stands between a node's begin and end tokens, in order. A node's properties and
  // children may be mixed and no-ops may stand anywhere.
  datatype Items =
    | Done
    | Nop(rest: Items)
    | Property(nameoff: nat, value: seq<Byte>, rest: Items)
    | Node(name: seq<Byte>, body: Items, rest: Items)

  function Be32(n: nat): (r: seq<Byte>)
    requires n < WORD32
    ensures |r| == 4
  {
    [(n / 0x100_0000) as Byte, (n / 0x1_0000 % 0x100) as Byte, (n / 0x100 % 0x100) as Byte, (n % 0x100) as Byte]
  }

  // fdt_read_be32
  function Read32(s: seq<Byte>, i: nat): (r: nat)
    requires i + 4 <= |s|
    ensures r < WORD32
  {
    s[i] as int * 0x100_0000 + s[i + 1] as int * 0x1_0000 + s[i + 2] as int * 0x100 + s[i + 3] as int
  }

  lemma {:induction false} ReadBe32(n: nat, s: seq<Byte>, i: nat)
    requires n < WORD32 && i + 4 <= |s|
    requires s[i] == Be32(n)[0] && s[i + 1] == Be32(n)[1] && s[i + 2] == Be32(n)[2] && s[i + 3] == Be32(n)[3]
    ensures Read32(s, i) == n
  {
    BytesOfWord(n);
  }

  lemma {:induction false} BytesOfWord(n: nat)
    requires n < WORD32
    ensures n / 0x100_0000 * 0x100_0000 + n / 0x1_0000 % 0x100 * 0x1_0000 + n / 0x100 % 0x100 * 0x100 + n % 0x100 == n
  {
    var a, b := n / 0x100, n / 0x1_0000;
    assert n == a * 0x100 + n % 0x100;
    assert a == b * 0x100 + a % 0x100;
    assert b == b / 0x100 * 0x100 + b % 0x100;
    assert b / 0x100 == n / 0x100_0000;
  }

  // fdt_align4
  function Align4(x: nat): (r: nat)
    ensures x <= r < x + 4 && r % 4 == 0
  {
    (x + 3) / 4 * 4
  }

  function Padded(v: seq<Byte>): (r: seq<Byte>)
    ensures |r| == Align4(|v|) && v <= r
  {
    v + seq(Align4(|v|) - |v|, _ => 0)
  }

  // Values the 32-bit fields can hold.
  predicate Sized(t: Items) {
    match t
    case Done => true
    case Nop(r) => Sized(r)
    case Property(no, v, r) => no < WORD32 && |v| < WORD32 && Sized(r)
    case Node(n, b, r) => Sized(b) && Sized(r)
  }

  function EncodeProperty(nameoff: nat, value: seq<Byte>): (r: seq<Byte>)
    requires nameoff < WORD32 && |value| < WORD32
    ensures |r| == PropertyLen(value)
  {
    Be32(PROP) + Be32(|value|) + Be32(nameoff) + Padded(value)
  }

  function EncodeBegin(name: seq<Byte>): (r: seq<Byte>)
    ensures |r| == BeginLen(name)
  {
    Be32(BEGIN_NODE) + Padded(name + [0])
  }

  function PropertyLen(value: seq<Byte>): (r: nat)
    ensures r % 4 == 0
  {
    12 + Align4(|value|)
  }

  function BeginLen(name: seq<Byte>): (r: nat)
    ensures r % 4 == 0
  {
    4 + Align4(|name| + 1)
  }

  function Encode(t: Items): seq<Byte>
    requires Sized(t)
  {
    match t
    case Done => []
    case Nop(r) => Be32(NOP) + Encode(r)
    case Property(no, v, r) => EncodeProperty(no, v) + Encode(r)
    case Node(n, b, r) => EncodeBegin(n) + Encode(b) + Be32(END_NODE) + Encode(r)
  }

  lemma {:induction false} Multiples(a: nat, b: nat)
    requires a % 4 == 0 && b % 4 == 0
    ensures (a + b) % 4 == 0
  {
  }

  lemma {:induction false} EncodeAligned(t: Items)
    requires Sized(t)
    ensures |Encode(t)| % 4 == 0
  {
    match t
    case Done =>
    case Nop(r) => EncodeAligned(r);
    case Property(no, v, r) =>
      EncodeAligned(r);
      Multiples(PropertyLen(v), |Encode(r)|);
    case Node(n, b, r) =>
      EncodeAligned(b);
      EncodeAligned(r);
      Multiples(BeginLen(n), |Encode(b)|);
      Multiples(4, |Encode(r)|);
      Multiples(BeginLen(n) + |Encode(b)|, 4 + |Encode(r)|);
  }

  // ---- C strings ----

  // Length of the string at i, stopping at the end of s.
  function StrLen(s: seq<Byte>, i: nat): (n: nat)
    requires i <= |s|
    ensures i + n <= |s|
    decreases |s| - i
  {
    if i < |s| && s[i] != 0 then 1 + StrLen(s, i + 1) else 0
  }

  function CStr(s: seq<Byte>, i: nat): seq<Byte>
    requires i <= |s|
  {
    s[i..i + StrLen(s, i)]
  }

  // The string at i ends inside s.
  predicate Terminated(s: seq<Byte>, i: nat) {
    i < |s| && i + StrLen(s, i) < |s|
  }

  function AsciiCode(c: char): Byte
    requires c as int < 256
  {
    c as int as Byte
  }

  function Ascii(s: string): (r: seq<Byte>)
    requires forall i :: 0 <= i < |s| ==> s[i] as int < 256
    ensures |r| == |s|
  {
    seq(|s|, i requires 0 <= i < |s| => AsciiCode(s[i]))
  }

  const ADDRESS_CELLS := Ascii("#address-cells")
  const SIZE_CELLS := Ascii("#size-cells")

  const SLASH: Byte := 47

  // ---- The nodes of a tree in order ----

  datatype Cells = Cells(address: nat, size: nat)

  const DEFAULT_CELLS := Cells(2, 1)  // section 2.3.5

  // A node as the walker reports it: where it begins, its path, and the cell counts of the
  // node above it.
  datatype Visit = Visit(offset: nat, path: seq<Byte>, cells: Cells)

  function ChildPath(depth: nat, path: seq<Byte>, name: seq<Byte>): seq<Byte> {
    if depth == 0 then [SLASH]
    else if path == [] || path[|path| - 1] != SLASH then path + [SLASH] + name
    else path + name
  }

  // The cell counts after a property.
  function SetCells(strings: seq<Byte>, c: Cells, nameoff: nat, value: seq<Byte>): Cells
    requires nameoff <= |strings|
  {
    if |value| != 4 then c
    else if CStr(strings, nameoff) == ADDRESS_CELLS then c.(address := Read32(value, 0))
    else if CStr(strings, nameoff) == SIZE_CELLS then c.(size := Read32(value, 0))
    else c
  }

  // Names hold no NUL, property names lie in the strings block, and lengths fit their fields.
  predicate Clean(strings: seq<Byte>, t: Items) {
    match t
    case Done => true
    case Nop(r) => Clean(strings, r)
    case Property(no, v, r) => no < WORD32 && |v| < WORD32 && Terminated(strings, no) && Clean(strings, r)
    case Node(n, b, r) => 0 !in n && Clean(strings, b) && Clean(strings, r)
  }

  lemma {:induction false} FitsClean(strings: seq<Byte>, t: Items, depth: nat, path: seq<Byte>, maxDepth: nat, maxPath: nat)
    requires Fits(strings, t, depth, path, maxDepth, maxPath)
    ensures Clean(strings, t)
  {
    match t
    case Done =>
    case Nop(r) => FitsClean(strings, r, depth, path, maxDepth, maxPath);
    case Property(no, v, r) => FitsClean(strings, r, depth, path, maxDepth, maxPath);
    case Node(n, b, r) =>
      FitsClean(strings, b, depth + 1, ChildPath(depth, path, n), maxDepth, maxPath);
      FitsClean(strings, r, depth, path, maxDepth, maxPath);
  }

  lemma {:induction false} CleanSized(strings: seq<Byte>, t: Items)
    requires Clean(strings, t)
    ensures Sized(t)
  {
    match t
    case Done =>
    case Nop(r) => CleanSized(strings, r);
    case Property(no, v, r) => CleanSized(strings, r);
    case Node(n, b, r) =>
      CleanSized(strings, b);
      CleanSized(strings, r);
  }

  // Names are in the strings block; cell counts are one word; names hold no NUL; and the
  // nesting and path limits of the walker are kept.
  predicate Fits(strings: seq<Byte>, t: Items, depth: nat, path: seq<Byte>, maxDepth: nat, maxPath: nat)
    decreases t
  {
    match t
    case Done => true
    case Nop(r) => Fits(strings, r, depth, path, maxDepth, maxPath)
    case Property(no, v, r) =>
      && depth > 0 && no < WORD32 && |v| < WORD32 && Terminated(strings, no)
      && (CStr(strings, no) == ADDRESS_CELLS || CStr(strings, no) == SIZE_CELLS ==> |v| == 4)
      && Fits(strings, r, depth, path, maxDepth, maxPath)
    case Node(n, b, r) =>
      && 0 !in n && depth < maxDepth && |ChildPath(depth, path, n)| < maxPath
      && Fits(strings, b, depth + 1, ChildPath(depth, path, n), maxDepth, maxPath)
      && Fits(strings, r, depth, path, maxDepth, maxPath)
  }

  lemma {:induction false} FitsSized(strings: seq<Byte>, t: Items, depth: nat, path: seq<Byte>, maxDepth: nat, maxPath: nat)
    requires Fits(strings, t, depth, path, maxDepth, maxPath)
    ensures Sized(t)
  {
    match t
    case Done =>
    case Nop(r) => FitsSized(strings, r, depth, path, maxDepth, maxPath);
    case Property(no, v, r) => FitsSized(strings, r, depth, path, maxDepth, maxPath);
    case Node(n, b, r) =>
      FitsSized(strings, b, depth + 1, ChildPath(depth, path, n), maxDepth, maxPath);
      FitsSized(strings, r, depth, path, maxDepth, maxPath);
  }

  // Preorder: the nodes among items at an offset, inside a node with this path whose cell
  // counts so far are c.
  function Preorder(strings: seq<Byte>, t: Items, off: nat, depth: nat, path: seq<Byte>, c: Cells): seq<Visit>
    requires Sized(t)
    decreases t
  {
    match t
    case Done => []
    case Nop(r) => Preorder(strings, r, off + 4, depth, path, c)
    case Property(no, v, r) =>
      var c' := if no <= |strings| then SetCells(strings, c, no, v) else c;
      Preorder(strings, r, off + PropertyLen(v), depth, path, c')
    case Node(n, b, r) =>
      var p := ChildPath(depth, path, n);
      var inside := off + BeginLen(n);
      [Visit(off, p, c)]
      + Preorder(strings, b, inside, depth + 1, p, DEFAULT_CELLS)
      + Preorder(strings, r, inside + |Encode(b)| + 4, depth, path, c)
  }

  // A root with one property, a no-op and a child "a", byte for byte.
  lemma {:induction false} FlattenedExample()
    ensures var t := Node([], Property(0x102, [7, 8, 9, 10, 11], Nop(Node([97], Done, Done))), Done);
            Sized(t) && Encode(t) == [0, 0, 0, 1, 0, 0, 0, 0]
                                     + ([0, 0, 0, 3, 0, 0, 0, 5, 0, 0, 1, 2, 7, 8, 9, 10, 11, 0, 0, 0]
                                        + ([0, 0, 0, 4] + [0, 0, 0, 1, 97, 0, 0, 0, 0, 0, 0, 2]))
                                     + [0, 0, 0, 2]
    ensures Be32(END) == [0, 0, 0, 9]
  {
    BodyExample();
    assert EncodeBegin([]) == [0, 0, 0, 1, 0, 0, 0, 0] by {
      assert [] + [0] == [0];
    }
    Glued(Property(0x102, [7, 8, 9, 10, 11], Nop(Node([97], Done, Done))), [0, 0, 0, 1, 0, 0, 0, 0]);
  }

  lemma {:induction false} Glued(body: Items, begin: seq<Byte>)
    requires Sized(body) && EncodeBegin([]) == begin
    ensures Encode(Node([], body, Done)) == begin + Encode(body) + [0, 0, 0, 2]
  {
    assert Encode(Done) == [];
  }

  lemma {:induction false} BodyExample()
    ensures Encode(Property(0x102, [7, 8, 9, 10, 11], Nop(Node([97], Done, Done)))) ==
            [0, 0, 0, 3, 0, 0, 0, 5, 0, 0, 1, 2, 7, 8, 9, 10, 11, 0, 0, 0]
            + ([0, 0, 0, 4] + [0, 0, 0, 1, 97, 0, 0, 0, 0, 0, 0, 2])
  {
    var value: seq<Byte> := [7, 8, 9, 10, 11];
    LeafExample();
    assert Padded(value) == [7, 8, 9, 10, 11, 0, 0, 0];
    assert EncodeProperty(0x102, value) == [0, 0, 0, 3, 0, 0, 0, 5, 0, 0, 1, 2, 7, 8, 9, 10, 11, 0, 0, 0];
  }

  lemma {:induction false} LeafExample()
    ensures Encode(Node([97], Done, Done)) == [0, 0, 0, 1, 97, 0, 0, 0, 0, 0, 0, 2]
  {
    assert EncodeBegin([97]) == [0, 0, 0, 1, 97, 0, 0, 0] by {
      assert [97] + [0] == [97, 0];
    }
    assert Encode(Done) == [];
    assert Encode(Node([97], Done, Done)) == EncodeBegin([97]) + Encode(Done) + Be32(END_NODE) + Encode(Done);
  }
}
