/** What a directory search looks for, and when it finds the entry that is meant. */
module DirQuery {
  import opened Bytes
  import opened Directory
  import opened DirEdits

  const DOT: byte := 0x2E
  const SPACE: byte := 0x20

  /** The first argument of fatfs_getfileinfo_fromdir with its useLFN: an 8.3 name as the user writes it
      (with what the uninitialised end of tcFile holds), a long name, or an 8.3 name already expanded. */
  datatype Query =
    | ByName(cFile: seq<byte>, junk: seq<byte>)
    | ByLfn(units: seq<Unit>)
    | Expanded(name: seq<byte>)

  /** Element `i` of a zero-terminated string. */
  function Char(s: seq<int>, i: nat): int {
    if i < |s| then s[i] else 0
  }

  /** cFile[0] == 0 in fatfs_getfileinfo_fromdir, where cFile points to bytes also when it holds a long name:
      the low byte of its first character on a little-endian machine. */
  predicate FirstByteZero(q: Query) {
    match q
    case ByName(cFile, _) => Char(cFile, 0) == 0
    case ByLfn(units) => Char(units, 0) % 256 == 0
    case Expanded(name) => Char(name, 0) == 0
  }

  function Spaces(n: nat): (s: seq<byte>)
    ensures |s| == n
  {
    seq<byte>(n, _ => SPACE)
  }

  /** "." and "..": fatfs_FN83_expandifspecial_b and fatfs_LFN_expandifspecial_b. */
  predicate Special(s: seq<int>) {
    Char(s, 0) == DOT && (Char(s, 1) == 0 || (Char(s, 1) == DOT && Char(s, 2) == 0))
  }

  function Dots(s: seq<int>): (r: seq<byte>)
    ensures |r| == 11
  {
    if Char(s, 1) == DOT then [DOT, DOT] + Spaces(9) else [DOT] + Spaces(10)
  }

  /** Characters before a dot or the end, at most `n`. */
  function Stem(s: seq<byte>, n: nat): (r: seq<byte>)
    ensures |r| <= n && |r| <= |s|
  {
    if n == 0 || Char(s, 0) == 0 || Char(s, 0) == DOT then [] else [s[0]] + Stem(s[1..], n - 1)
  }

  /** Characters before the end, at most `n`. */
  function Upto(s: seq<byte>, n: nat): (r: seq<byte>)
    ensures |r| <= n && |r| <= |s|
  {
    if n == 0 || Char(s, 0) == 0 then [] else [s[0]] + Upto(s[1..], n - 1)
  }

  /** FN83_expand. A stem of more than eight characters is an error that the search ignores; it then compares
      with eight characters and whatever follows them in memory. */
  function Expand83(s: seq<byte>, junk: seq<byte>): seq<byte> {
    var stem := Stem(s, 8);
    var c := Char(s, |stem|);
    if c != DOT && c != 0 then stem + junk
    else
      var ext := if c == DOT then Upto(s[|stem| + 1..], 3) else [];
      stem + Spaces(8 - |stem|) + ext + Spaces(3 - |ext|)
  }

  /** What entries are compared with. */
  datatype Key = Key83(name: seq<int>) | KeyLfn(lfn: seq<int>)

  function KeyOf(q: Query): Key {
    match q
    case ByName(cFile, junk) => Key83(if Special(cFile) then Dots(cFile) else Expand83(cFile, junk))
    case ByLfn(units) => if Special(units) then Key83(Dots(units)) else KeyLfn(units)
    case Expanded(name) => Key83(name)
  }

  predicate HasKey(x: Entry, k: Key) {
    match k
    case Key83(name) => CStr(x.Name()) == CStr(name)
    case KeyLfn(lfn) => x.lfn == CStr(lfn)
  }

  /** The 8.3 name of a directory slot: the stem in the first eight bytes and the extension in the last three, the
      rest blank. */
  ghost predicate IsSlotName(s: seq<int>, stem: seq<byte>, ext: seq<byte>) {
    |s| == 11 && Filled(s, 0, 8, stem) && Filled(s, 8, 11, ext)
  }

  /** Bytes a..b of a slot hold the characters of `part`, and then blanks. */
  ghost predicate Filled(s: seq<int>, a: nat, b: nat, part: seq<byte>) {
    && a + |part| <= b <= |s|
    && forall i :: a <= i < b ==> s[i] == if i < a + |part| then part[i - a] else SPACE
  }

  /** What can stand before the dot of a name. */
  predicate Plain(s: seq<byte>) {
    0 !in s && DOT !in s
  }

  /** A name as it is written: the stem, and a dot and the extension if there is one. */
  function Written(stem: seq<byte>, ext: seq<byte>): seq<byte> {
    if ext == [] then stem else stem + [DOT] + ext
  }

  /** Which slot name a written name stands for: its stem and the first three characters of its extension; a dot
      with nothing behind it makes no difference. */
  lemma WrittenName(stem: seq<byte>, ext: seq<byte>, junk: seq<byte>)
    requires 1 <= |stem| <= 8 && Plain(stem) && 0 !in ext
    ensures var short := if |ext| <= 3 then ext else ext[..3];
      && KeyOf(ByName(stem + [DOT] + ext, junk)).Key83? && KeyOf(ByName(Written(stem, ext), junk)).Key83?
      && IsSlotName(KeyOf(ByName(stem + [DOT] + ext, junk)).name, stem, short)
      && IsSlotName(KeyOf(ByName(Written(stem, ext), junk)).name, stem, short)
  {
    hide Expand83;
    var s := stem + [DOT] + ext;
    ExpandDotted(stem, ext, junk);
    ExpandPlain(stem, junk);
    assert stem[0] in stem && s[0] == stem[0];
  }

  lemma ExpandDotted(stem: seq<byte>, ext: seq<byte>, junk: seq<byte>)
    requires |stem| <= 8 && Plain(stem) && 0 !in ext
    ensures IsSlotName(Expand83(stem + [DOT] + ext, junk), stem, if |ext| <= 3 then ext else ext[..3])
  {
    hide Upto, Stem;
    var s := stem + [DOT] + ext;
    StemIs(stem, [DOT] + ext, 8);
    UptoIs(ext, 3);
    assert stem + ([DOT] + ext) == s && s[|stem| + 1..] == ext;
  }

  lemma ExpandPlain(stem: seq<byte>, junk: seq<byte>)
    requires |stem| <= 8 && Plain(stem)
    ensures IsSlotName(Expand83(stem, junk), stem, [])
  {
    hide Upto, Stem;
    StemIs(stem, [], 8);
    assert stem + [] == stem;
  }

  /** A stem of more than eight characters stands for its first eight and whatever follows them in memory. */
  lemma LongStem(stem: seq<byte>, rest: seq<byte>, junk: seq<byte>)
    requires |stem| > 8 && Plain(stem)
    ensures KeyOf(ByName(stem + rest, junk)) == Key83(stem[..8] + junk)
  {
    hide Upto, Stem;
    var s := stem + rest;
    StemIs(stem[..8], stem[8..] + rest, 8);
    assert stem[..8] + (stem[8..] + rest) == s;
    assert stem[0] in stem && stem[8] in stem && s[8] == stem[8] && s[0] == stem[0];
  }

  lemma {:induction false} StemIs(stem: seq<byte>, rest: seq<byte>, n: nat)
    requires |stem| <= n && Plain(stem) && (|stem| < n ==> Char(rest, 0) in {0, DOT as int})
    ensures Stem(stem + rest, n) == stem
  {
    if stem == [] {
      assert [] + rest == rest;
    } else {
      assert stem[0] in stem && (stem + rest)[1..] == stem[1..] + rest;
      StemIs(stem[1..], rest, n - 1);
    }
  }

  lemma {:induction false} UptoIs(s: seq<byte>, n: nat)
    requires 0 !in s
    ensures Upto(s, n) == if |s| <= n then s else s[..n]
  {
    if n > 0 && s != [] {
      assert s[0] in s;
      UptoIs(s[1..], n - 1);
      assert |s| > n ==> s[..n] == [s[0]] + s[1..][..n - 1];
    }
  }

  /** The names of a directory itself and of the one above it, given either way, are slot names with no extension;
      and a name that merely begins with a dot has no stem. */
  lemma DotNames(ext: seq<byte>, junk: seq<byte>)
    requires 0 !in ext && ext != [] && ext[0] != DOT
    ensures IsSlotName(KeyOf(ByName([DOT], junk)).name, [DOT], [])
    ensures IsSlotName(KeyOf(ByName([DOT, DOT], junk)).name, [DOT, DOT], [])
    ensures KeyOf(ByLfn([DOT])) == KeyOf(ByName([DOT], junk))
    ensures KeyOf(ByLfn([DOT, DOT])) == KeyOf(ByName([DOT, DOT], junk))
    ensures IsSlotName(KeyOf(ByName([DOT] + ext, junk)).name, [], if |ext| <= 3 then ext else ext[..3])
  {
    hide Expand83;
    ExpandDotted([], ext, junk);
    assert [] + [DOT] + ext == [DOT] + ext && ext[0] in ext;
    var a, b, c: seq<int> := [DOT], [DOT, DOT], [DOT] + ext;
    assert Special(a) && Special(b) && !Special(c);
  }

  /** An entry has the name that is written if and only if its slot holds that stem and that extension. */
  lemma HasWrittenName(x: Entry, stem: seq<byte>, ext: seq<byte>, junk: seq<byte>)
    requires 1 <= |stem| <= 8 && Plain(stem) && |ext| <= 3 && 0 !in ext
    ensures HasKey(x, KeyOf(ByName(Written(stem, ext), junk))) <==> IsSlotName(x.Name(), stem, ext)
  {
    hide KeyOf, IsSlotName;
    WrittenName(stem, ext, junk);
    var key, name := KeyOf(ByName(Written(stem, ext), junk)).name, x.Name();
    NoZero(key, stem, ext);
    CStrIs(key, key);
    SlotNameSize(key, stem, ext);
    WholeName(name);
    if IsSlotName(name, stem, ext) {
      SameSlotName(name, key, stem, ext);
    }
  }

  lemma SameSlotName(s: seq<int>, t: seq<int>, stem: seq<byte>, ext: seq<byte>)
    requires IsSlotName(s, stem, ext) && IsSlotName(t, stem, ext)
    ensures s == t
  {
    assert forall i :: 0 <= i < 11 ==> s[i] == t[i];
  }

  lemma WholeName(s: seq<int>)
    ensures |CStr(s)| == |s| ==> CStr(s) == s
  {}

  lemma SlotNameSize(s: seq<int>, stem: seq<byte>, ext: seq<byte>)
    requires IsSlotName(s, stem, ext)
    ensures |s| == 11
  {}

  lemma NoZero(s: seq<int>, stem: seq<byte>, ext: seq<byte>)
    requires IsSlotName(s, stem, ext) && 0 !in stem && 0 !in ext
    ensures 0 !in s
  {
    forall i | 0 <= i < |s|
      ensures s[i] != 0
    {
      assert i < |stem| ==> stem[i] in stem;
      assert 8 <= i < 8 + |ext| ==> ext[i - 8] in ext;
    }
  }

  /** Two names without blanks stand for the same slot name only if stem and extension are the same. */
  lemma WrittenOnce(s: seq<int>, stem: seq<byte>, ext: seq<byte>, stem': seq<byte>, ext': seq<byte>)
    requires IsSlotName(s, stem, ext) && IsSlotName(s, stem', ext')
    requires SPACE !in stem && SPACE !in stem' && SPACE !in ext && SPACE !in ext'
    ensures stem == stem' && ext == ext'
  {
    FilledOnce(s, 0, 8, stem, stem');
    FilledOnce(s, 8, 11, ext, ext');
  }

  lemma FilledOnce(s: seq<int>, a: nat, b: nat, part: seq<byte>, part': seq<byte>)
    requires Filled(s, a, b, part) && Filled(s, a, b, part') && SPACE !in part && SPACE !in part'
    ensures part == part'
  {
    NoLonger(s, a, b, part, part');
    NoLonger(s, a, b, part', part);
    forall i | 0 <= i < |part|
      ensures part[i] == part'[i]
    {
      assert s[a + i] == part[i];
    }
  }

  /** A blank ends a part of a name. */
  lemma NoLonger(s: seq<int>, a: nat, b: nat, part: seq<byte>, part': seq<byte>)
    requires Filled(s, a, b, part) && Filled(s, a, b, part') && SPACE !in part
    ensures |part| <= |part'|
  {
    if part != [] {
      var i := a + |part| - 1;
      assert s[i] == part[i - a] && part[i - a] in part;
    }
  }

  /** The first entry of a directory with a given slot name is found by that name as it is written. */
  lemma FoundByWrittenName(es: seq<Entry>, i: nat, stem: seq<byte>, ext: seq<byte>, junk: seq<byte>)
    requires 1 <= |stem| <= 8 && Plain(stem) && |ext| <= 3 && 0 !in ext
    requires i < |es| && IsSlotName(es[i].Name(), stem, ext)
    requires forall j :: 0 <= j < i ==> !IsSlotName(es[j].Name(), stem, ext)
    ensures FoundAt(es, ByName(Written(stem, ext), junk), i)
  {
    hide KeyOf, HasKey, Entry.Name, IsSlotName;
    var name := Written(stem, ext);
    forall j | 0 <= j <= i
      ensures HasKey(es[j], KeyOf(ByName(name, junk))) <==> IsSlotName(es[j].Name(), stem, ext)
    {
      HasWrittenName(es[j], stem, ext, junk);
    }
    assert name[0] == stem[0] && stem[0] in stem;
    NameFoundIff(es, i, name, junk);
  }

  /** The test at the end of a round of the search: the comparison, or any entry at all if cFile[0] is 0. */
  predicate Matches(q: Query, x: Entry) {
    HasKey(x, KeyOf(q)) || FirstByteZero(q)
  }

  predicate NoneMatch(es: seq<Entry>, q: Query) {
    forall j :: 0 <= j < |es| ==> !Matches(q, es[j])
  }

  predicate NoneHas(es: seq<Entry>, k: Key) {
    forall j :: 0 <= j < |es| ==> !HasKey(es[j], k)
  }

  /** The search stops at entry `i`. */
  predicate FoundAt(es: seq<Entry>, q: Query, i: nat) {
    i < |es| && Matches(q, es[i]) && NoneMatch(es[..i], q)
  }

  /** The search finds the first entry with the wanted key if and only if the argument does not begin with
      a zero byte, or that entry is the first one of the directory. */
  lemma FoundIff(es: seq<Entry>, q: Query, i: nat)
    requires i < |es| && HasKey(es[i], KeyOf(q)) && NoneHas(es[..i], KeyOf(q))
    ensures FoundAt(es, q, i) <==> !FirstByteZero(q) || i == 0
    ensures FirstByteZero(q) ==> FoundAt(es, q, 0)
  {
    hide KeyOf, HasKey;
    if FirstByteZero(q) && i > 0 {
      assert es[..i][0] == es[0];
    }
  }

  /** Looking for the long name of an entry finds it if and only if: for a name that is empty or whose first
      character is a multiple of 256, the entry is the first one; for "." and "..", its 8.3 name is that
      name and no earlier one is; any other name always. */
  lemma LongNameFoundIff(es: seq<Entry>, i: nat, name: seq<Unit>)
    requires i < |es| && es[i].lfn == name && 0 !in name && forall j :: 0 <= j < i ==> es[j].lfn != name
    ensures FoundAt(es, ByLfn(name), i) <==>
      if Char(name, 0) % 256 == 0 then i == 0
      else if Special(name) then HasKey(es[i], Key83(Dots(name))) && NoneHas(es[..i], Key83(Dots(name)))
      else true
  {
    hide Dots;
    CStrIs(name, name);
    var q := ByLfn(name);
    if !Special(name) {
      FoundIff(es, q, i);
    }
  }

  /** Looking for an 8.3 name finds the first entry that has it, unless the name is empty. */
  lemma NameFoundIff(es: seq<Entry>, i: nat, cFile: seq<byte>, junk: seq<byte>)
    requires i < |es| && HasKey(es[i], KeyOf(ByName(cFile, junk))) && NoneHas(es[..i], KeyOf(ByName(cFile, junk)))
    ensures FoundAt(es, ByName(cFile, junk), i) <==> Char(cFile, 0) != 0 || i == 0
  {
    FoundIff(es, ByName(cFile, junk), i);
  }

  /** In a directory of two files the long name U+4E00 of the second finds the first one. */
  lemma FindsTheOtherFile()
    ensures var a := Entry(0, 0, [], ['A' as byte] + Spaces(10) + seq<byte>(21, _ => 0));
      var b := Entry(1, 2, [0x4E00], ['B' as byte] + Spaces(10) + seq<byte>(21, _ => 0));
      FoundAt([a, b], ByLfn([0x4E00]), 0) && !FoundAt([a, b], ByLfn([0x4E00]), 1)
  {
    var a := Entry(0, 0, [], ['A' as byte] + Spaces(10) + seq<byte>(21, _ => 0));
    var b := Entry(1, 2, [0x4E00], ['B' as byte] + Spaces(10) + seq<byte>(21, _ => 0));
    LongNameFoundIff([a, b], 1, [0x4E00]);
  }

  lemma FoundOnce(es: seq<Entry>, q: Query, i: nat, j: nat)
    requires FoundAt(es, q, i) && FoundAt(es, q, j)
    ensures i == j
  {
    if i < j {
      NotBefore(es, q, i, j);
    } else if j < i {
      NotBefore(es, q, j, i);
    }
  }

  lemma NotBefore(es: seq<Entry>, q: Query, i: nat, j: nat)
    requires i < j <= |es| && NoneMatch(es[..j], q)
    ensures !Matches(q, es[i])
  {
    assert es[..j][i] == es[i];
  }

  /** An entry with a new key is inserted. The search for that key finds it exactly as FoundIff says, taking
      it out again restores the entries, and taking out any other one does not. */
  lemma InsertedThenDeleted(before: seq<Entry>, a: seq<Entry>, x: Entry, b: seq<Entry>, q: Query)
    requires before == a + b && NoneHas(before, KeyOf(q)) && HasKey(x, KeyOf(q))
    ensures FoundAt(a + [x] + b, q, |a|) <==> !FirstByteZero(q) || a == []
    ensures exists i :: FoundAt(a + [x] + b, q, i)
    ensures forall i :: 0 <= i < |a| + 1 + |b| ==> (RemoveAt(a + [x] + b, i) == before <==> i == |a|)
  {
    hide KeyOf, HasKey;
    var after := a + [x] + b;
    forall j | 0 <= j < |a|
      ensures !HasKey(a[j], KeyOf(q))
    {
      assert before[j] == a[j];
    }
    assert after[..|a|] == a;
    assert after[|a|] == x;
    FoundIff(after, q, |a|);
    assert RemoveAt(after, |a|) == before;
    forall i | 0 <= i < |after| && i != |a|
      ensures RemoveAt(after, i) != before
    {
      var r := RemoveAt(after, i);
      var k := if i < |a| then |a| - 1 else |a|;
      assert r[k] == x && !HasKey(before[k], KeyOf(q));
    }
  }
}
