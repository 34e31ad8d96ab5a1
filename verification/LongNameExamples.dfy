/**
 Entries of a FAT directory as they stand on a disk, and the names found (loader/filesys/fsys_fat.c).
 */
module LongNameExamples {
  import opened Common
  import opened LongNames

  predicate Ascii(s: string) { forall i :: 0 <= i < |s| ==> s[i] as int < 0x80 }

  function Text(s: string): (u: seq<Byte>)
    requires Ascii(s)
    ensures |u| == |s|
  {
    seq<Byte>(|s|, i requires 0 <= i < |s| => s[i] as int)
  }

  const ALIAS: FileName := [0x4C, 0x4F, 0x4E, 0x47, 0x46, 0x49, 0x7E, 0x31, 0x54, 0x58, 0x54]
  const NAME: seq<Unit> := [0x4C, 0x6F, 0x6E, 0x67, 0x20, 0x66, 0x69, 0x6C, 0x65, 0x20, 0x6E, 0x61, 0x6D,
                            0x65, 0x2E, 0x74, 0x78, 0x74]

  /** The two parts of the name, the last one first; the alias is "LONGFI~1TXT". */
  const SECOND: Slot := Part(0x42, 0xD4, [0x65, 0x2E, 0x74, 0x78, 0x74, 0, 0xFFFF, 0xFFFF, 0xFFFF, 0xFFFF, 0xFFFF,
                                          0xFFFF, 0xFFFF])
  const FIRST: Slot := Part(0x01, 0xD4, [0x4C, 0x6F, 0x6E, 0x67, 0x20, 0x66, 0x69, 0x6C, 0x65, 0x20, 0x6E, 0x61, 0x6D])

  lemma Characters()
    ensures Text("LONGFI~1TXT") == ALIAS && Text("Long file name.txt") == NAME
  {
  }

  lemma AliasChecksum()
    ensures Checksum(ALIAS, 11) == 0xD4
  {
    assert Checksum(ALIAS, 1) == 0x4C && Checksum(ALIAS, 2) == 0x75 && Checksum(ALIAS, 3) == 0x08;
    assert Checksum(ALIAS, 4) == 0x4B && Checksum(ALIAS, 5) == 0xEB && Checksum(ALIAS, 6) == 0x3E;
    assert Checksum(ALIAS, 7) == 0x9D && Checksum(ALIAS, 8) == 0xFF && Checksum(ALIAS, 9) == 0x53;
    assert Checksum(ALIAS, 10) == 0x01;
  }

  method SumExample() returns (sum: Byte)
    ensures sum == 0xD4
  {
    AliasChecksum();
    var names := new Names();
    sum := names.Sum(ALIAS);
  }

  lemma PartsOfName()
    ensures PartsFrom(NAME, 0xD4, Count(NAME)) == [SECOND, FIRST]
  {
    assert |NAME| == 18 && Count(NAME) == 2 && |NAME| % 13 == 5;
    assert Padded(NAME)[13..26] == SECOND.units && Padded(NAME)[0..13] == FIRST.units;
    assert PartsFrom(NAME, 0xD4, 0) == [] && PartsFrom(NAME, 0xD4, 1) == [FIRST];
    assert PartsFrom(NAME, 0xD4, 2) == [SECOND] + [FIRST];
  }

  lemma SeenTwo(a: Slot, b: Slot, name: FileName)
    ensures Seen([], [Long(a), Long(b), Short(name, 0)], 0, 2) == [a, b]
  {
    var dir := [Long(a), Long(b), Short(name, 0)];
    assert Seen([], dir, 0, 0) == [] && Seen([], dir, 0, 1) == [] + [a] == [a];
    assert Seen([], dir, 0, 2) == [a] + [b];
  }

  lemma {:induction false} Listed(dir: seq<Entry>)
    requires dir == [Long(SECOND), Long(FIRST), Short(ALIAS, 0)]
    ensures Named(Seen([], dir, 0, 2), ALIAS, 0, NAME)
  {
    hide Seen, Named, Checksum, PartsFrom;
    AliasChecksum();
    PartsOfName();
    ProperIsNamed([], NAME, ALIAS, 0);
    SeenTwo(SECOND, FIRST, ALIAS);
    EmptyLeft([SECOND, FIRST]);
  }

  /** The file is found by its long name. */
  method LookupExample() returns (pos: nat, found: bool, name: seq<Unit>)
    ensures found && pos == 2 && name == NAME
  {
    var dir := [Long(SECOND), Long(FIRST), Short(ALIAS, 0)];
    Listed(dir);
    var names := new Names();
    var wanted := x => x == NAME;
    assert names.Rest() == [];
    IsWanted([], dir, 0, 2, wanted, NAME);
    pos, found := names.Lookup(dir, 0, wanted);
    name := CString(names.filename[..]);
  }

  lemma {:induction false} FieldIs(name: seq<Byte>, i: nat, n: nat, end: nat)
    requires i + n <= end <= |name| && (n < end - i ==> name[i + n] == 0x20)
    requires forall k :: i <= k < i + n ==> name[k] != 0 && name[k] != 0x20
    ensures |Field(name, i, end, false)| == |Field(name, i, end, true)| == n
    ensures forall k :: 0 <= k < n ==>
              && Field(name, i, end, false)[k] == name[i + k]
              && Field(name, i, end, true)[k] ==
                 if 0x41 <= name[i + k] <= 0x5A then name[i + k] + 0x20 else name[i + k]
    decreases n
  {
    if n > 0 {
      FieldIs(name, i + 1, n - 1, end);
    }
  }

  // "README  TXT" and "README     "
  const README_TXT: FileName := [0x52, 0x45, 0x41, 0x44, 0x4D, 0x45, 0x20, 0x20, 0x54, 0x58, 0x54]
  const README: FileName := [0x52, 0x45, 0x41, 0x44, 0x4D, 0x45, 0x20, 0x20, 0x20, 0x20, 0x20]

  lemma Bases()
    ensures Field(README_TXT, 0, 8, false) == Field(README, 0, 8, false) == [0x52, 0x45, 0x41, 0x44, 0x4D, 0x45]
    ensures Field(README_TXT, 0, 8, true) == Field(README, 0, 8, true) == [0x72, 0x65, 0x61, 0x64, 0x6D, 0x65]
  {
    hide Field;
    FieldIs(README_TXT, 0, 6, 8);
    FieldIs(README, 0, 6, 8);
  }

  lemma Extensions()
    ensures Field(README_TXT, 8, 11, false) == [0x54, 0x58, 0x54] && Field(README, 8, 11, false) == []
    ensures Field(README_TXT, 8, 11, true) == [0x74, 0x78, 0x74] && Field(README, 8, 11, true) == []
  {
    hide Field;
    FieldIs(README_TXT, 8, 3, 11);
    FieldIs(README, 8, 0, 11);
  }

  /** The two bits of the flags make base or extension lower case, and an empty extension has no dot. */
  lemma ShortNames()
    ensures ShortName(README_TXT, 0x00) == [0x52, 0x45, 0x41, 0x44, 0x4D, 0x45, 0x2E, 0x54, 0x58, 0x54]
    ensures ShortName(README_TXT, 0x08) == [0x72, 0x65, 0x61, 0x64, 0x6D, 0x65, 0x2E, 0x54, 0x58, 0x54]
    ensures ShortName(README_TXT, 0x10) == [0x52, 0x45, 0x41, 0x44, 0x4D, 0x45, 0x2E, 0x74, 0x78, 0x74]
    ensures ShortName(README, 0x18) == [0x72, 0x65, 0x61, 0x64, 0x6D, 0x65]
  {
    hide Field;
    Bases();
    Extensions();
  }

  /** A backslash, a space, which is quoted, and a letter. */
  lemma QuotedSpace()
    ensures Utf8([0x5C, 0x20, 0x61]) == [0x5C, 0x5C, 0x20, 0x61]
  {
    assert [0x5C, 0x20, 0x61][..2] == [0x5C, 0x20] && [0x5C, 0x20][..1] == [0x5C] && [0x5C][..0] == [];
    assert Utf8([0x5C]) == [] + [0x5C];
    assert Utf8([0x5C, 0x20]) == [0x5C] + [0x5C, 0x20];
  }

  /** Units of two and of three bytes. */
  lemma LongUnits()
    ensures Utf8([0xE9, 0x20AC]) == [0xC3, 0xA9, 0xE2, 0x82, 0xAC]
  {
    assert [0xE9, 0x20AC][..1] == [0xE9] && [0xE9][..0] == [];
    assert Utf8([0xE9]) == [] + [0xC3, 0xA9];
  }
}
