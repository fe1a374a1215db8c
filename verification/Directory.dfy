/** Directories: the table of 64-byte entries that a directory's bytes encode. */
module Directory {
  import opened Bytes
  import opened BlockOps

  type Name = seq<byte>

  const SLASH: byte := 0x2F
  const DOT: Name := [0x2E]
  const DOT_DOT: Name := [0x2E, 0x2E]

  /** Where an entry leads; `kind` is the mode of the inode it leads to. */
  datatype Link = Link(child: nat, kind: nat)

  predicate NameByte(x: byte) {
    0 < x <= 0x7F && x != SLASH
  }

  predicate ValidName(name: Name) {
    0 < |name| <= 58 && forall i :: 0 <= i < |name| ==> NameByte(name[i])
  }

  // ---------- one entry ----------

  /** Number of bytes before the first NUL. */
  function Length(s: seq<byte>): (n: nat)
    ensures n <= |s| && (n < |s| ==> s[n] == 0) && forall i :: 0 <= i < n ==> s[i] != 0
  {
    if s == [] || s[0] == 0 then 0 else 1 + Length(s[1..])
  }

  function NameOf(raw: seq<byte>): (name: Name)
    requires |raw| == 64
  {
    raw[5..64][..Length(raw[5..64])]
  }

  function LinkOf(raw: seq<byte>): (l: Link)
    requires |raw| == 64
  {
    Link(Le32(raw, 0), raw[4])
  }

  /** A NUL-padded, NUL-terminated valid name. */
  predicate NameFieldOK(s: seq<byte>) {
    ValidName(s[..Length(s)]) && Length(s) < |s| && AllZero(s[Length(s)..])
  }

  predicate EntryOK(raw: seq<byte>)
    requires |raw| == 64
  {
    if raw[4] == 0 then AllZero(raw) else (raw[4] == 1 || raw[4] == 2) && NameFieldOK(raw[5..64])
  }

  function EncodeEntry(child: u32, kind: byte, name: Name): (raw: seq<byte>)
    requires |name| <= 58
    ensures |raw| == 64
  {
    Le32Bytes(child) + [kind] + (name + Zeros(59 - |name|))
  }

  lemma LengthOfPadded(name: Name, pad: nat)
    requires forall i :: 0 <= i < |name| ==> name[i] != 0
    ensures Length(name + Zeros(pad)) == |name|
  {
    var s := name + Zeros(pad);
    assert forall i :: 0 <= i < |name| ==> s[i] == name[i];
    assert |name| < |s| ==> s[|name|] == 0;
  }

  lemma DecodeEncodeEntry(child: u32, kind: byte, name: Name)
    requires ValidName(name) && (kind == 1 || kind == 2)
    ensures var raw := EncodeEntry(child, kind, name);
            EntryOK(raw) && LinkOf(raw) == Link(child, kind) && NameOf(raw) == name && raw[4] == kind
  {
    var raw, field := EncodeEntry(child, kind, name), name + Zeros(59 - |name|);
    assert raw[0..4] == Le32Bytes(child)[0..4];
    Le32Local(raw, 0, Le32Bytes(child), 0);
    assert raw[5..64] == field;
    LengthOfPadded(name, 59 - |name|);
    assert field[..|name|] == name;
    assert AllZero(field[|name|..]);
  }

  // ---------- the table ----------

  function Slots(c: seq<byte>): (n: nat) { |c| / 64 }

  function Raw(c: seq<byte>, k: nat): (raw: seq<byte>)
    requires k < Slots(c)
    ensures |raw| == 64
  {
    c[64 * k..64 * k + 64]
  }

  predicate Used(c: seq<byte>, k: nat)
    requires k < Slots(c)
  {
    Raw(c, k)[4] != 0
  }

  ghost predicate UniqueNames(c: seq<byte>) {
    forall j: nat, k: nat :: j < Slots(c) && k < Slots(c) && j != k && Used(c, j) && Used(c, k) ==>
      NameOf(Raw(c, j)) != NameOf(Raw(c, k))
  }

  /** What every directory's bytes look like. */
  ghost predicate DirectoryOK(c: seq<byte>) {
    && |c| % 64 == 0
    && (forall k: nat :: k < Slots(c) ==> EntryOK(Raw(c, k)))
    && UniqueNames(c)
  }

  ghost predicate NamedAt(c: seq<byte>, k: nat, name: Name) {
    k < Slots(c) && Used(c, k) && NameOf(Raw(c, k)) == name
  }

  ghost predicate Listed(c: seq<byte>, name: Name) {
    exists k: nat :: NamedAt(c, k, name)
  }

  ghost function Names(c: seq<byte>): (ns: set<Name>)
    ensures forall name :: name in ns <==> Listed(c, name)
  {
    NamesListed(c);
    set k: nat | k < Slots(c) && Used(c, k) :: NameOf(Raw(c, k))
  }

  lemma NamesListed(c: seq<byte>)
    ensures forall name :: name in (set k: nat | k < Slots(c) && Used(c, k) :: NameOf(Raw(c, k))) <==> Listed(c, name)
  {
    var ns := set k: nat | k < Slots(c) && Used(c, k) :: NameOf(Raw(c, k));
    forall name | name in ns ensures Listed(c, name) {
      var k: nat :| k < Slots(c) && Used(c, k) && NameOf(Raw(c, k)) == name;
      assert NamedAt(c, k, name);
    }
  }

  ghost function SlotOf(c: seq<byte>, name: Name): (k: nat)
    requires Listed(c, name)
    ensures NamedAt(c, k, name)
  {
    var k: nat :| NamedAt(c, k, name);
    k
  }

  ghost function Entries(c: seq<byte>): (es: map<Name, Link>)
    ensures forall name :: name in es <==> Listed(c, name)
  {
    map name | name in Names(c) :: LinkOf(Raw(c, SlotOf(c, name)))
  }

  lemma EntryAt(c: seq<byte>, k: nat, name: Name)
    requires DirectoryOK(c) && NamedAt(c, k, name)
    ensures Listed(c, name) && SlotOf(c, name) == k && name in Entries(c) && Entries(c)[name] == LinkOf(Raw(c, k))
  {
    assert Listed(c, name);
  }

  /** Writing one entry-sized piece at an entry boundary replaces that slot only. */
  lemma RawOfWritten(c: seq<byte>, k: nat, raw: seq<byte>, j: nat)
    requires |c| % 64 == 0 && k <= Slots(c) && |raw| == 64
    requires j < Slots(Written(c, 64 * k, raw))
    ensures Slots(Written(c, 64 * k, raw)) == if k == Slots(c) then Slots(c) + 1 else Slots(c)
    ensures |Written(c, 64 * k, raw)| % 64 == 0
    ensures j != k ==> j < Slots(c)
    ensures Raw(Written(c, 64 * k, raw), j) == if j == k then raw else Raw(c, j)
  {
    var d := Written(c, 64 * k, raw);
    if j == k {
      assert Raw(d, j) == raw;
    } else {
      assert Raw(d, j) == Raw(c, j);
    }
  }

  lemma NamedOfWritten(c: seq<byte>, k: nat, raw: seq<byte>, j: nat, name: Name)
    requires |c| % 64 == 0 && k <= Slots(c) && |raw| == 64
    ensures NamedAt(Written(c, 64 * k, raw), j, name) <==>
              if j == k then raw[4] != 0 && NameOf(raw) == name else NamedAt(c, j, name)
  {
    var d := Written(c, 64 * k, raw);
    if j < Slots(d) {
      RawOfWritten(c, k, raw, j);
    } else {
      RawOfWritten(c, k, raw, k);
    }
  }

  lemma AddKeepsOrder(c: seq<byte>, k: nat, raw: seq<byte>)
    requires DirectoryOK(c) && k <= Slots(c) && |raw| == 64 && EntryOK(raw)
    requires raw[4] != 0 ==> !Listed(c, NameOf(raw)) || (k < Slots(c) && NamedAt(c, k, NameOf(raw)))
    ensures DirectoryOK(Written(c, 64 * k, raw))
  {
    hide Raw, Written, NameOf, EntryOK;
    var d := Written(c, 64 * k, raw);
    RawOfWritten(c, k, raw, k);
    forall j: nat | j < Slots(d) ensures EntryOK(Raw(d, j)) { RawOfWritten(c, k, raw, j); }
    forall i: nat, j: nat | i < Slots(d) && j < Slots(d) && i != j && Used(d, i) && Used(d, j)
      ensures NameOf(Raw(d, i)) != NameOf(Raw(d, j))
    {
      RawOfWritten(c, k, raw, i);
      RawOfWritten(c, k, raw, j);
      assert i != k ==> NamedAt(c, i, NameOf(Raw(c, i)));
      assert j != k ==> NamedAt(c, j, NameOf(Raw(c, j)));
    }
  }

  /** Storing an entry for a new name in a free slot adds that name and changes nothing else. */
  lemma AddEntry(c: seq<byte>, k: nat, child: u32, kind: byte, name: Name)
    requires DirectoryOK(c) && k <= Slots(c) && (k < Slots(c) ==> !Used(c, k))
    requires ValidName(name) && (kind == 1 || kind == 2) && name !in Entries(c)
    ensures var d := Written(c, 64 * k, EncodeEntry(child, kind, name));
            DirectoryOK(d) && Entries(d) == Entries(c)[name := Link(child, kind)]
  {
    hide Raw, Written, NameOf, EntryOK, LinkOf, EncodeEntry, DirectoryOK, Listed;
    var raw := EncodeEntry(child, kind, name);
    var d := Written(c, 64 * k, raw);
    DecodeEncodeEntry(child, kind, name);
    AddKeepsOrder(c, k, raw);
    DirectorySize(c);
    forall x ensures (x in Entries(d)) == (x in Entries(c) || x == name) {
      ListedAfterAdd(c, k, raw, name, x);
    }
    forall x | x in Entries(d) ensures Entries(d)[x] == if x == name then Link(child, kind) else Entries(c)[x] {
      ListedAfterAdd(c, k, raw, name, x);
      EntryAfterWrite(c, k, raw, x);
    }
  }

  lemma DirectorySize(c: seq<byte>)
    requires DirectoryOK(c)
    ensures |c| % 64 == 0
  {
  }

  lemma EntryAfterWrite(c: seq<byte>, k: nat, raw: seq<byte>, x: Name)
    requires DirectoryOK(c) && k <= Slots(c) && |raw| == 64
    requires DirectoryOK(Written(c, 64 * k, raw)) && Listed(Written(c, 64 * k, raw), x)
    ensures if raw[4] != 0 && NameOf(raw) == x then Entries(Written(c, 64 * k, raw))[x] == LinkOf(raw)
            else Listed(c, x) && Entries(Written(c, 64 * k, raw))[x] == Entries(c)[x]
  {
    hide Raw, Written, NameOf, EntryOK, LinkOf, UniqueNames;
    var d := Written(c, 64 * k, raw);
    var j := SlotOf(d, x);
    RawOfWritten(c, k, raw, k);
    NamedOfWritten(c, k, raw, j, x);
    NamedOfWritten(c, k, raw, k, x);
    RawOfWritten(c, k, raw, j);
    EntryAt(d, j, x);
    if j != k {
      EntryAt(c, j, x);
    }
    if raw[4] != 0 && NameOf(raw) == x {
      EntryAt(d, k, x);
    }
  }

  lemma ListedAfterAdd(c: seq<byte>, k: nat, raw: seq<byte>, name: Name, x: Name)
    requires |c| % 64 == 0 && k <= Slots(c) && (k < Slots(c) ==> !Used(c, k)) && |raw| == 64
    requires raw[4] != 0 && NameOf(raw) == name
    ensures Listed(Written(c, 64 * k, raw), x) == (Listed(c, x) || x == name)
  {
    var d := Written(c, 64 * k, raw);
    if Listed(c, x) {
      var j := SlotOf(c, x);
      NamedOfWritten(c, k, raw, j, x);
    }
    if Listed(d, x) {
      var j := SlotOf(d, x);
      NamedOfWritten(c, k, raw, j, x);
    }
    NamedOfWritten(c, k, raw, k, x);
  }

  /** Clearing a used slot removes its name and changes nothing else. */
  lemma RemoveEntry(c: seq<byte>, k: nat, name: Name)
    requires DirectoryOK(c) && NamedAt(c, k, name)
    ensures var d := Written(c, 64 * k, Zeros(64));
            |d| == |c| && DirectoryOK(d) && Entries(d) == Entries(c) - {name}
  {
    hide Raw, NameOf, LinkOf, DirectoryOK, Listed;
    var d := Written(c, 64 * k, Zeros(64));
    DirectorySize(c);
    AddKeepsOrder(c, k, Zeros(64));
    forall x ensures (x in Entries(d)) == (x in Entries(c) && x != name) {
      ListedAfterRemove(c, k, name, x);
    }
    forall x | x in Entries(d) ensures x in Entries(c) && Entries(d)[x] == Entries(c)[x] {
      EntryAfterWrite(c, k, Zeros(64), x);
    }
    assert |d| == |c| by { SlotInside(c, k); }
  }

  lemma SlotInside(c: seq<byte>, k: nat)
    requires k < Slots(c)
    ensures 64 * k + 64 <= |c|
  {
  }

  lemma ListedAfterRemove(c: seq<byte>, k: nat, name: Name, x: Name)
    requires DirectoryOK(c) && NamedAt(c, k, name)
    ensures Listed(Written(c, 64 * k, Zeros(64)), x) == (Listed(c, x) && x != name)
  {
    var d := Written(c, 64 * k, Zeros(64));
    if Listed(c, x) && x != name {
      var j := SlotOf(c, x);
      NamedOfWritten(c, k, Zeros(64), j, x);
    }
    if Listed(d, x) {
      var j := SlotOf(d, x);
      NamedOfWritten(c, k, Zeros(64), j, x);
      EntryAt(c, k, name);
      EntryAt(c, j, x);
    }
  }
}
