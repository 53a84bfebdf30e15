/**
 The tar headers of lib/ustar.c, in the "ustar Interchange Format" of the pax
 utility in the Single UNIX Specification, version 3.  A C string is a sequence
 of bytes without a null byte; a header is a sequence of fields, and its 512
 bytes are the fields one after the other.
 */
module Ustar {
  import opened Common
  import opened Printf

  const DOT: byte := 0x2e
  const SLASH: byte := 0x2f
  const ULONG_MAX := 0xffff_ffff
  const INT_MAX := 0x7fff_ffff
  const HEADER_SIZE := 512
  const REGULAR: byte := 0x30     // '0'
  const DIRECTORY: byte := 0x35   // '5'

  // ---------------------------------------------------------------- names

  /** The index of the first slash, or the length. */
  function FindSlash(s: seq<byte>): (i: nat)
    ensures i <= |s| && (i < |s| ==> s[i] == SLASH)
    ensures forall j :: 0 <= j < i ==> s[j] != SLASH
  {
    if s == [] then 0 else if s[0] == SLASH then 0 else 1 + FindSlash(s[1..])
  }

  /** A name that starts with "/", "./" or "../". */
  predicate Antisocial(s: seq<byte>) {
    || (|s| >= 1 && s[0] == SLASH)
    || (|s| >= 2 && s[0] == DOT && s[1] == SLASH)
    || (|s| >= 3 && s[0] == DOT && s[1] == DOT && s[2] == SLASH)
  }

  lemma AntisocialHasSlash(s: seq<byte>)
    requires Antisocial(s)
    ensures FindSlash(s) < |s|
  {
    var i := if s[0] == SLASH then 0 else if s[1] == SLASH then 1 else 2;
    assert s[i] == SLASH;
  }

  /** What is left of a name, and a dot for nothing or two dots. */
  function DotForNone(s: seq<byte>): seq<byte> {
    if s == [] || s == [DOT, DOT] then [DOT] else s
  }

  /** What strip_antisocial_prefixes returns. */
  function Strip(s: seq<byte>): (r: seq<byte>)
    decreases |s|
  {
    if Antisocial(s) then
      AntisocialHasSlash(s);
      Strip(s[FindSlash(s) + 1..])
    else DotForNone(s)
  }

  /** A place in a name where a component begins. */
  predicate Component(s: seq<byte>, k: nat) {
    k <= |s| && (k == 0 || s[k - 1] == SLASH)
  }

  /** The first component from which on a name is not antisocial. */
  ghost predicate FirstSafe(s: seq<byte>, k: nat) {
    && Component(s, k) && !Antisocial(s[k..])
    && forall j: nat :: j < k && Component(s, j) ==> Antisocial(s[j..])
  }

  ghost predicate StripsAt(s: seq<byte>, k: nat, r: seq<byte>) {
    FirstSafe(s, k) && r == DotForNone(s[k..])
  }

  lemma DropTwice(s: seq<byte>, n: nat, k: nat)
    requires n + k <= |s|
    ensures s[n..][k..] == s[n + k..]
    ensures Component(s, n) ==> (Component(s[n..], k) <==> Component(s, n + k))
  {
  }

  lemma EarlierIsAntisocial(s: seq<byte>, k: nat, j: nat)
    requires Antisocial(s) && FindSlash(s) < |s| && FirstSafe(s[FindSlash(s) + 1..], k)
    requires Component(s, j) && j < FindSlash(s) + 1 + k
    ensures Antisocial(s[j..])
  {
    hide Antisocial;
    var n := FindSlash(s) + 1;
    if j == 0 {
      assert s[0..] == s;
    } else {
      DropTwice(s, n, j - n);
    }
  }

  lemma OneComponentMore(s: seq<byte>, k: nat, r: seq<byte>)
    requires Antisocial(s) && FindSlash(s) < |s| && StripsAt(s[FindSlash(s) + 1..], k, r)
    ensures StripsAt(s, FindSlash(s) + 1 + k, r)
  {
    hide Antisocial, DotForNone, Component;
    var n := FindSlash(s) + 1;
    WithinName(s, n, k);
    DropTwice(s, n, k);
    forall j: nat | j < n + k && Component(s, j) ensures Antisocial(s[j..]) {
      EarlierIsAntisocial(s, k, j);
    }
  }

  lemma WithinName(s: seq<byte>, n: nat, k: nat)
    requires n <= |s| && Component(s[n..], k)
    ensures n + k <= |s| && (n > 0 && s[n - 1] == SLASH ==> Component(s, n))
  {
  }

  /** A name is stripped of no more than it has to be: what is left is all of it from the
      first component on from which it is not antisocial, or a dot if that is nothing or
      two dots. */
  lemma {:induction false} StripsNoMore(s: seq<byte>)
    ensures exists k: nat :: StripsAt(s, k, Strip(s))
    decreases |s|
  {
    hide Antisocial, StripsAt, DotForNone;
    if Antisocial(s) {
      AntisocialHasSlash(s);
      var rest := s[FindSlash(s) + 1..];
      StripsNoMore(rest);
      var k: nat :| StripsAt(rest, k, Strip(rest));
      OneComponentMore(s, k, Strip(rest));
      assert StripsAt(s, FindSlash(s) + 1 + k, Strip(s));
    } else {
      SafeAtOnce(s);
      assert StripsAt(s, 0, Strip(s));
    }
  }

  lemma SafeAtOnce(s: seq<byte>)
    requires !Antisocial(s)
    ensures StripsAt(s, 0, DotForNone(s))
  {
    assert s[0..] == s;
  }

  /** A stripped name is a C string that is not empty, not ".." and leads neither to
      the root nor to the parent directory, and stripping it again changes nothing. */
  lemma {:induction false} StripOnce(s: seq<byte>)
    requires CString(s)
    ensures CString(Strip(s)) && Strip(s) != [] && Strip(s) != [DOT, DOT] && !Antisocial(Strip(s))
    ensures Strip(Strip(s)) == Strip(s)
    ensures |Strip(s)| <= if s == [] then 1 else |s|
    decreases |s|
  {
    if Antisocial(s) {
      AntisocialHasSlash(s);
      StripOnce(s[FindSlash(s) + 1..]);
    }
  }

  /** strip_antisocial_prefixes */
  method StripAntisocialPrefixes(fileName: seq<byte>) returns (r: seq<byte>)
    ensures r == Strip(fileName)
  {
    var name := fileName;
    while Antisocial(name)
      invariant Strip(name) == Strip(fileName)
      decreases |name|
    {
      AntisocialHasSlash(name);
      var i := 0;
      while name[i] != SLASH
        invariant 0 <= i <= FindSlash(name)
        decreases FindSlash(name) - i
      {
        i := i + 1;
      }
      name := name[i + 1..];
    }
    r := if name == [] || name == [DOT, DOT] then [DOT] else name;
  }

  // -------------------------------------------------------------- octal fields

  /** parse_octal_field, from an offset on, with the value so far. */
  function ParseOctal(s: seq<byte>, ofs: nat, value: nat): Option<nat>
    requires ofs <= |s|
    decreases |s| - ofs
  {
    if ofs == |s| then None
    else if DIGIT0 <= s[ofs] < DIGIT0 + 8 then
      if value > ULONG_MAX / 8 then None else ParseOctal(s, ofs + 1, s[ofs] - DIGIT0 + value * 8)
    else if s[ofs] == SPACE || s[ofs] == NUL then
      if ofs > 0 then Some(value) else None
    else None
  }

  /** parse_octal_field */
  method ParseOctalField(s: seq<byte>) returns (r: Option<nat>)
    ensures r == ParseOctal(s, 0, 0)
    ensures r.Some? ==> r.value <= ULONG_MAX
  {
    var value: nat, ofs: nat := 0, 0;
    while ofs < |s|
      invariant 0 <= ofs <= |s| && value <= ULONG_MAX
      invariant ParseOctal(s, ofs, value) == ParseOctal(s, 0, 0)
    {
      var c := s[ofs];
      if DIGIT0 <= c < DIGIT0 + 8 {
        if value > ULONG_MAX / 8 {
          return None;
        }
        value := c - DIGIT0 + value * 8;
      } else if c == SPACE || c == NUL {
        return if ofs > 0 then Some(value) else None;
      } else {
        return None;
      }
      ofs := ofs + 1;
    }
    r := None;
  }

  /** The value of the first k octal digits of a number. */
  function Leading(value: nat, n: nat, k: nat): nat
    requires k <= n
  {
    if k == n then value else Leading(value / 8, n - 1, k)
  }

  lemma {:induction false} LeadingDigit(value: nat, n: nat, k: nat)
    requires k < n
    ensures Octal(value, n)[k] - DIGIT0 + Leading(value, n, k) * 8 == Leading(value, n, k + 1)
    ensures Leading(value, n, k) * 8 <= value
  {
    if k < n - 1 {
      LeadingDigit(value / 8, n - 1, k);
    }
  }

  lemma {:induction false} LeadingNone(value: nat, n: nat)
    requires value < Power8(n)
    ensures Leading(value, n, 0) == 0
  {
    if n > 0 {
      LeadingNone(value / 8, n - 1);
    }
  }

  lemma {:induction false} ParseFrom(value: nat, n: nat, k: nat)
    requires value <= ULONG_MAX && k <= n && n > 0
    ensures ParseOctal(Octal(value, n) + [NUL], k, Leading(value, n, k)) == Some(value)
    decreases n - k
  {
    if k < n {
      LeadingDigit(value, n, k);
      ParseFrom(value, n, k + 1);
    }
  }

  predicate OctalDigits(s: seq<byte>) {
    forall i :: 0 <= i < |s| ==> DIGIT0 <= s[i] < DIGIT0 + 8
  }

  /** At least one octal digit, the digits of v, and a space or a null byte after them. */
  ghost predicate OctalField(s: seq<byte>, n: nat, v: nat) {
    && 0 < n < |s| && OctalDigits(s[..n]) && (s[n] == SPACE || s[n] == NUL)
    && ReadBack(s[..n], OCTAL) == v
  }

  lemma DigitsBefore(s: seq<byte>, n: nat, v: nat)
    requires OctalField(s, n, v)
    ensures forall i :: 0 <= i < n ==> DIGIT0 <= s[i] < DIGIT0 + 8
  {
    forall i | 0 <= i < n ensures DIGIT0 <= s[i] < DIGIT0 + 8 {
      assert s[..n][i] == s[i];
    }
  }

  lemma OctalDigit(c: byte)
    requires DIGIT0 <= c < DIGIT0 + 8
    ensures DigitOf(c, OCTAL.digits) == c - DIGIT0
  {
    DigitFound(OCTAL.digits, c - DIGIT0);
  }

  lemma OctalDigitRead(s: seq<byte>, n: nat)
    requires n < |s| && OctalDigits(s[..n]) && DIGIT0 <= s[n] < DIGIT0 + 8
    ensures OctalDigits(s[..n + 1]) && ReadBack(s[..n + 1], OCTAL) == ReadBack(s[..n], OCTAL) * 8 + (s[n] - DIGIT0)
  {
    hide NoDup, DigitOf;
    assert s[..n + 1][..n] == s[..n];
    OctalDigit(s[n]);
  }

  /** The value read so far only grows. */
  lemma {:induction false} MoreDigits(s: seq<byte>, k: nat, n: nat)
    requires k <= n <= |s| && OctalDigits(s[..n])
    ensures ReadBack(s[..k], OCTAL) <= ReadBack(s[..n], OCTAL)
    ensures k < n ==> ReadBack(s[..k], OCTAL) * 8 <= ReadBack(s[..n], OCTAL)
    decreases n - k
  {
    if k < n {
      assert s[..n][..n - 1] == s[..n - 1] && OctalDigits(s[..n - 1]);
      assert s[n - 1] == s[..n][n - 1];
      OctalDigitRead(s, n - 1);
      MoreDigits(s, k, n - 1);
    }
  }

  lemma {:induction false} ParseMeans(s: seq<byte>, ofs: nat, value: nat) returns (n: nat)
    requires ofs <= |s| && OctalDigits(s[..ofs]) && value == ReadBack(s[..ofs], OCTAL) <= ULONG_MAX
    ensures var r := ParseOctal(s, ofs, value);
      && (r.Some? ==> r.value <= ULONG_MAX && OctalField(s, n, r.value))
      && (r.None? ==> forall m: nat, v: nat :: ofs <= m && OctalField(s, m, v) ==> v > ULONG_MAX)
    decreases |s| - ofs
  {
    hide ReadBack;
    n := ofs;
    if ofs < |s| && DIGIT0 <= s[ofs] < DIGIT0 + 8 {
      OctalDigitRead(s, ofs);
      if value <= ULONG_MAX / 8 {
        n := ParseMeans(s, ofs + 1, s[ofs] - DIGIT0 + value * 8);
      } else {
        forall m: nat, v: nat | ofs <= m && OctalField(s, m, v) ensures v > ULONG_MAX {
          MoreDigits(s, ofs, m);
        }
      }
    } else if ofs < |s| {
      forall m: nat, v: nat | ofs <= m && OctalField(s, m, v) ensures m == ofs {
        DigitsBefore(s, m, v);
      }
    }
  }

  /** A field is parsed exactly if it begins with octal digits, at least one, that a
      space or a null byte ends and whose value fits, and then to that value. */
  lemma ParseOctalExactly(s: seq<byte>, v: nat)
    ensures ParseOctal(s, 0, 0) == Some(v) <==> v <= ULONG_MAX && exists n :: OctalField(s, n, v)
  {
    assert s[..0] == [];
    var n := ParseMeans(s, 0, 0);
    forall m: nat, w: nat | OctalField(s, m, w) && ParseOctal(s, 0, 0).Some? ensures w == ParseOctal(s, 0, 0).value {
      OneField(s, m, w, n, ParseOctal(s, 0, 0).value);
    }
  }

  lemma OneField(s: seq<byte>, m: nat, v: nat, n: nat, w: nat)
    requires OctalField(s, m, v) && OctalField(s, n, w)
    ensures m == n && v == w
  {
    DigitsBefore(s, m, v);
    DigitsBefore(s, n, w);
  }

  /** Parsing undoes printing. */
  lemma ParsePrinted(value: nat, n: nat)
    requires value <= ULONG_MAX && value < Power8(n) && n > 0
    ensures ParseOctal(Octal(value, n) + [NUL], 0, 0) == Some(value)
  {
    LeadingNone(value, n);
    ParseFrom(value, n, 0);
  }

  // ----------------------------------------------------------------- fields

  // The fields of struct ustar_header, by number.
  const NAME := 0
  const MODE := 1
  const UID := 2
  const GID := 3
  const SIZE := 4
  const MTIME := 5
  const CHKSUM := 6
  const TYPEFLAG := 7
  const LINKNAME := 8
  const MAGIC := 9
  const VERSION := 10
  const UNAME := 11
  const GNAME := 12
  const DEVMAJOR := 13
  const DEVMINOR := 14
  const PREFIX := 15
  const PADDING := 16
  const FIELDS := 17

  /** The size of a field. */
  function Len(k: nat): nat {
    if k == NAME || k == LINKNAME then 100
    else if k == SIZE || k == MTIME || k == PADDING then 12
    else if k == TYPEFLAG then 1
    else if k == MAGIC then 6
    else if k == VERSION then 2
    else if k == UNAME || k == GNAME then 32
    else if k == PREFIX then 155
    else 8
  }

  /** Where a field starts. */
  function Ofs(k: nat): nat {
    if k == 0 then 0 else Ofs(k - 1) + Len(k - 1)
  }

  ghost predicate Fitting(h: seq<seq<byte>>) {
    |h| == FIELDS && forall k :: 0 <= k < FIELDS ==> |h[k]| == Len(k)
  }

  /** The bytes of the first n fields. */
  function Bytes(h: seq<seq<byte>>, n: nat): seq<byte>
    requires n <= |h|
  {
    if n == 0 then [] else Bytes(h, n - 1) + h[n - 1]
  }

  lemma {:induction false} BytesLength(h: seq<seq<byte>>, n: nat)
    requires Fitting(h) && n <= FIELDS
    ensures |Bytes(h, n)| == Ofs(n)
  {
    if n > 0 {
      BytesLength(h, n - 1);
    }
  }

  lemma HeaderSize()
    ensures Ofs(FIELDS) == HEADER_SIZE && Ofs(CHKSUM) == 148 && Ofs(CHKSUM + 1) == 156
  {
    assert Ofs(4) == 124;
    assert Ofs(8) == 157;
    assert Ofs(12) == 297;
    assert Ofs(16) == 500;
  }

  /** A field of the header, seen from its bytes. */
  function Field(bytes: seq<byte>, k: nat): seq<byte>
    requires k < FIELDS && Ofs(k) + Len(k) <= |bytes|
  {
    bytes[Ofs(k)..Ofs(k) + Len(k)]
  }

  lemma {:induction false} ByteOfField(h: seq<seq<byte>>, n: nat, k: nat, i: nat)
    requires Fitting(h) && k < n <= FIELDS && i < Len(k)
    ensures |Bytes(h, n)| == Ofs(n) && Ofs(k) + Len(k) <= Ofs(n) && Bytes(h, n)[Ofs(k) + i] == h[k][i]
  {
    BytesLength(h, n);
    BytesLength(h, n - 1);
    if k < n - 1 {
      ByteOfField(h, n - 1, k, i);
    }
  }

  /** A field is what its bytes say. */
  lemma FieldOfBytes(h: seq<seq<byte>>, k: nat)
    requires Fitting(h) && k < FIELDS
    ensures Ofs(k) + Len(k) <= |Bytes(h, FIELDS)| && Field(Bytes(h, FIELDS), k) == h[k]
  {
    hide Bytes, Ofs;
    ByteOfField(h, FIELDS, k, 0);
    forall i: nat | i < Len(k) ensures Bytes(h, FIELDS)[Ofs(k) + i] == h[k][i] {
      ByteOfField(h, FIELDS, k, i);
    }
  }

  // --------------------------------------------------------------- checksum

  /** The sum of the first n bytes, the bytes of the chksum field taken as spaces. */
  function Checksum(bytes: seq<byte>, n: nat): nat
    requires n <= |bytes|
  {
    if n == 0 then 0
    else Checksum(bytes, n - 1) + if Ofs(CHKSUM) <= n - 1 < Ofs(CHKSUM + 1) then SPACE else bytes[n - 1]
  }

  /** The end of the part of the chksum field that is in the first n bytes. */
  function Clamp(n: nat): nat {
    if n < 148 then 148 else if n > 156 then 156 else n
  }

  lemma {:induction false} ChecksumOfPart(bytes: seq<byte>, n: nat)
    requires |bytes| == HEADER_SIZE && n <= |bytes|
    ensures Checksum(bytes, n) + Sum(bytes[148..Clamp(n)]) == Sum(bytes[..n]) + 0x20 * (Clamp(n) - 148)
  {
    hide Ofs;
    HeaderSize();
    if n > 0 {
      ChecksumOfPart(bytes, n - 1);
      assert bytes[..n][..n - 1] == bytes[..n - 1];
      if 148 < n <= 156 {
        assert bytes[148..n][..n - 149] == bytes[148..n - 1];
      }
    }
  }

  /** It is the sum of all bytes with 8 spaces for the 8 bytes of the chksum field. */
  lemma ChecksumIsSum(bytes: seq<byte>)
    requires |bytes| == HEADER_SIZE
    ensures Checksum(bytes, HEADER_SIZE) + Sum(bytes[148..156]) == Sum(bytes) + 8 * 0x20
  {
    ChecksumOfPart(bytes, HEADER_SIZE);
    assert bytes[..HEADER_SIZE] == bytes;
  }

  /** calculate_chksum */
  method CalculateChksum(bytes: seq<byte>) returns (chksum: nat)
    ensures chksum == Checksum(bytes, |bytes|)
    ensures |bytes| == HEADER_SIZE ==> chksum + Sum(bytes[148..156]) == Sum(bytes) + 8 * 0x20
  {
    if |bytes| == HEADER_SIZE {
      ChecksumIsSum(bytes);
    }
    chksum := 0;
    for i := 0 to |bytes|
      invariant chksum == Checksum(bytes, i)
    {
      var inChksumField := Ofs(CHKSUM) <= i < Ofs(CHKSUM + 1);
      chksum := chksum + if inChksumField then SPACE else bytes[i];
    }
  }

  lemma {:induction false} ChecksumBound(bytes: seq<byte>, n: nat)
    requires n <= |bytes|
    ensures Checksum(bytes, n) <= 255 * n
  {
    if n > 0 {
      ChecksumBound(bytes, n - 1);
    }
  }

  lemma {:induction false} ChecksumIgnoresField(bytes: seq<byte>, bytes': seq<byte>, n: nat)
    requires |bytes'| == |bytes| && n <= |bytes|
    requires forall i :: 0 <= i < |bytes| && !(Ofs(CHKSUM) <= i < Ofs(CHKSUM + 1)) ==> bytes'[i] == bytes[i]
    ensures Checksum(bytes', n) == Checksum(bytes, n)
  {
    if n > 0 {
      ChecksumIgnoresField(bytes, bytes', n - 1);
    }
  }

  lemma {:induction false} OtherBytesStay(h: seq<seq<byte>>, n: nat, k: nat, f: seq<byte>, i: nat)
    requires Fitting(h) && k < FIELDS && |f| == Len(k) && n <= FIELDS && i < Ofs(n)
    requires !(Ofs(k) <= i < Ofs(k + 1))
    ensures |Bytes(h, n)| == Ofs(n) == |Bytes(h[k := f], n)| && Bytes(h[k := f], n)[i] == Bytes(h, n)[i]
  {
    hide Len;
    BytesLength(h, n);
    BytesLength(h[k := f], n);
    BytesLength(h, n - 1);
    BytesLength(h[k := f], n - 1);
    if i < Ofs(n - 1) {
      OtherBytesStay(h, n - 1, k, f, i);
    }
  }

  /** The checksum stays right when it is filled in. */
  lemma ChecksumConsistent(h: seq<seq<byte>>, f: seq<byte>)
    requires Fitting(h) && |f| == Len(CHKSUM)
    ensures |Bytes(h, FIELDS)| == |Bytes(h[CHKSUM := f], FIELDS)| == HEADER_SIZE
    ensures Checksum(Bytes(h[CHKSUM := f], FIELDS), HEADER_SIZE) == Checksum(Bytes(h, FIELDS), HEADER_SIZE)
  {
    HeaderSize();
    BytesLength(h, FIELDS);
    BytesLength(h[CHKSUM := f], FIELDS);
    forall i: nat | i < HEADER_SIZE && !(Ofs(CHKSUM) <= i < Ofs(CHKSUM + 1))
      ensures Bytes(h[CHKSUM := f], FIELDS)[i] == Bytes(h, FIELDS)[i]
    {
      OtherBytesStay(h, FIELDS, CHKSUM, f, i);
    }
    ChecksumIgnoresField(Bytes(h, FIELDS), Bytes(h[CHKSUM := f], FIELDS), HEADER_SIZE);
  }

  // ----------------------------------------------------------------- making

  /** strlcpy of a string that fits into a field of zeros. */
  function Copied(s: seq<byte>, size: nat): (r: seq<byte>)
    requires |s| < size
    ensures |r| == size && r[..|s|] == s && forall i :: |s| <= i < size ==> r[i] == NUL
  {
    s + Dup(NUL, size - |s|)
  }

  const USTAR: seq<byte> := [0x75, 0x73, 0x74, 0x61, 0x72]
  const ROOT: seq<byte> := [0x72, 0x6f, 0x6f, 0x74]

  /** The header of a file, with zeros for the chksum field. */
  ghost predicate Filled(h: seq<seq<byte>>, name: seq<byte>, typeflag: byte, size: nat) {
    && Fitting(h) && |name| <= 99
    && h[NAME] == Copied(name, 100)
    && h[MODE] == Octal(if typeflag == REGULAR then 0x1a4 else 0x1ed, 7) + [NUL]
    && h[UID] == Octal(0, 7) + [NUL] && h[GID] == Octal(0, 7) + [NUL]
    && size <= ULONG_MAX && h[SIZE] == Octal(size, 11) + [NUL]
    && h[MTIME] == Octal(1136102400, 11) + [NUL]
    && h[TYPEFLAG] == [typeflag]
    && h[MAGIC] == Copied(USTAR, 6) && h[VERSION] == [DIGIT0, DIGIT0]
    && h[UNAME] == Copied(ROOT, 32) && h[GNAME] == Copied(ROOT, 32)
    && h[LINKNAME] == Dup(NUL, 100) && h[DEVMAJOR] == Dup(NUL, 8) && h[DEVMINOR] == Dup(NUL, 8)
    && h[PREFIX] == Dup(NUL, 155) && h[PADDING] == Dup(NUL, 12)
  }

  /** The number of a C int taken as unsigned. */
  function Unsigned(size: int): nat
    requires -INT_MAX - 1 <= size <= INT_MAX
  {
    if size < 0 then ULONG_MAX + 1 + size else size
  }

  lemma OctalFits()
    ensures Power8(7) == 2097152 && Power8(11) == 8589934592
  {
    assert Power8(4) == 4096;
    assert Power8(8) == 16777216;
  }

  /** The made header: filled in, with the sum of its own bytes. */
  ghost predicate Made(h: seq<seq<byte>>, name: seq<byte>, typeflag: byte, size: nat) {
    && |h| == FIELDS && Filled(h[CHKSUM := Dup(NUL, 8)], name, typeflag, size)
    && |Bytes(h, FIELDS)| == HEADER_SIZE
    && h[CHKSUM] == Octal(Checksum(Bytes(h, FIELDS), HEADER_SIZE), 7) + [NUL]
    && Checksum(Bytes(h, FIELDS), HEADER_SIZE) < Power8(7)
  }

  /** What the numbers look like in the header: mode 0644 for a regular file and 0755 for a
      directory, owner and group 0. */
  lemma MadeText(h: seq<seq<byte>>, name: seq<byte>, typeflag: byte, size: nat)
    requires Made(h, name, typeflag, size)
    ensures typeflag == REGULAR ==> h[MODE] == [0x30, 0x30, 0x30, 0x30, 0x36, 0x34, 0x34, NUL]
    ensures typeflag == DIRECTORY ==> h[MODE] == [0x30, 0x30, 0x30, 0x30, 0x37, 0x35, 0x35, NUL]
    ensures h[UID] == h[GID] == [0x30, 0x30, 0x30, 0x30, 0x30, 0x30, 0x30, NUL]
  {
    hide Octal, Dup, Fitting, Copied;
    ThreeDigits(6, 4, 4);
    ThreeDigits(7, 5, 5);
    ThreeDigits(0, 0, 0);
    FourZeros();
  }

  lemma FourZeros()
    ensures Dup(DIGIT0, 4) == [DIGIT0, DIGIT0, DIGIT0, DIGIT0]
  {
  }

  lemma ThreeDigits(a: nat, b: nat, c: nat)
    requires a < 8 && b < 8 && c < 8
    ensures Octal(64 * a + 8 * b + c, 7) == Dup(DIGIT0, 4) + [DIGIT0 + a, DIGIT0 + b, DIGIT0 + c]
  {
    hide Octal, Dup;
    var zeros := Dup(DIGIT0, 4);
    OctalZero(4);
    OctalStep(0, a, 5);
    OctalStep(a, b, 6);
    OctalStep(8 * a + b, c, 7);
    assert zeros + [DIGIT0 + a] + [DIGIT0 + b] + [DIGIT0 + c] == zeros + [DIGIT0 + a, DIGIT0 + b, DIGIT0 + c];
  }

  lemma OctalStep(v: nat, d: nat, n: nat)
    requires d < 8 && n > 0
    ensures Octal(8 * v + d, n) == Octal(v, n - 1) + [DIGIT0 + d]
  {
  }

  /** ustar_make_header, field by field; it fails for a stripped name of more than
      99 characters. */
  method MakeHeader(fileName: seq<byte>, typeflag: byte, size: int) returns (ok: bool, h: seq<seq<byte>>)
    requires CString(fileName) && (typeflag == REGULAR || typeflag == DIRECTORY)
    requires -INT_MAX - 1 <= size <= INT_MAX
    ensures ok <==> |Strip(fileName)| <= 99
    ensures ok ==> Made(h, Strip(fileName), typeflag, Unsigned(size))
  {
    hide Octal, Strip, Filled, Made;
    h := [];
    var name := StripAntisocialPrefixes(fileName);
    ok := |name| <= 99;
    if !ok {
      return;
    }
    h := FillFields(name, typeflag, Unsigned(size));
    h := FillChksum(h, name, typeflag, Unsigned(size));
  }

  /** All fields but chksum. */
  method FillFields(name: seq<byte>, typeflag: byte, size: nat) returns (h: seq<seq<byte>>)
    requires |name| <= 99 && size <= ULONG_MAX
    ensures Filled(h, name, typeflag, size) && h[CHKSUM] == Dup(NUL, 8)
  {
    hide Octal, Power8, Ofs, Copied, Dup;
    OctalFits();
    h := seq(FIELDS, k requires 0 <= k < FIELDS => Dup(NUL, Len(k)));
    h := h[NAME := Copied(name, 100)];
    var mode := PrintOctal(if typeflag == REGULAR then 0x1a4 else 0x1ed, 7);
    h := h[MODE := mode];
    var zero := PrintOctal(0, 7);
    h := h[UID := zero][GID := zero];
    var sizeField := PrintOctal(size, 11);
    h := h[SIZE := sizeField];
    var mtime := PrintOctal(1136102400, 11);
    h := h[MTIME := mtime][TYPEFLAG := [typeflag]];
    h := h[MAGIC := Copied(USTAR, 6)][VERSION := [DIGIT0, DIGIT0]];
    h := h[GNAME := Copied(ROOT, 32)][UNAME := Copied(ROOT, 32)];
  }

  /** The end of ustar_make_header. */
  method FillChksum(h: seq<seq<byte>>, ghost name: seq<byte>, ghost typeflag: byte, ghost size: nat)
    returns (r: seq<seq<byte>>)
    requires Filled(h, name, typeflag, size) && h[CHKSUM] == Dup(NUL, 8)
    ensures Made(r, name, typeflag, size)
  {
    HeaderSize();
    OctalFits();
    BytesLength(h, FIELDS);
    var chksum := CalculateChksum(Bytes(h, FIELDS));
    ChecksumBound(Bytes(h, FIELDS), HEADER_SIZE);
    var field := PrintOctal(chksum, 7);
    ChecksumConsistent(h, field);
    r := h[CHKSUM := field];
    assert r[CHKSUM := Dup(NUL, 8)] == h;
  }

  // ---------------------------------------------------------------- parsing

  datatype Parsed =
    | EndOfArchive
    | Bad(message: string)
    | Archived(name: seq<byte>, typeflag: byte, size: nat)

  /** A C string in a field. */
  function UpToNul(s: seq<byte>): (r: seq<byte>)
    ensures CString(r) && |r| <= |s| && r == s[..|r|] && (|r| < |s| ==> s[|r|] == NUL)
  {
    if s == [] || s[0] == NUL then [] else [s[0]] + UpToNul(s[1..])
  }

  /** What ustar_parse_header makes of 512 bytes that are not all zero. */
  function Parse(bytes: seq<byte>): Parsed
    requires |bytes| == HEADER_SIZE
  {
    HeaderSize();
    FieldsWithin(bytes);
    var chksum := ParseOctal(Field(bytes, CHKSUM), 0, 0);
    var typeflag := Field(bytes, TYPEFLAG)[0];
    var size := ParseOctal(Field(bytes, SIZE), 0, 0);
    if Field(bytes, MAGIC) != USTAR + [NUL] then Bad("not a ustar archive")
    else if Field(bytes, VERSION) != [DIGIT0, DIGIT0] then Bad("invalid ustar version")
    else if chksum.None? then Bad("corrupt chksum field")
    else if chksum.value != Checksum(bytes, HEADER_SIZE) then Bad("checksum mismatch")
    else if Field(bytes, NAME)[99] != NUL || Field(bytes, PREFIX)[0] != NUL then Bad("file name too long")
    else if typeflag != REGULAR && typeflag != DIRECTORY then Bad("unimplemented file type")
    else if typeflag == DIRECTORY then Archived(Strip(UpToNul(Field(bytes, NAME))), typeflag, 0)
    else if size.None? then Bad("corrupt file size field")
    else if size.value > INT_MAX then Bad("file too large")
    else Archived(Strip(UpToNul(Field(bytes, NAME))), typeflag, size.value)
  }

  /** A header names its format and its version, has the right checksum, a name that
      ends within its field and no prefix, and stands for a directory or for a regular
      file of a size that fits. */
  predicate Acceptable(bytes: seq<byte>)
    requires |bytes| == HEADER_SIZE
  {
    HeaderSize();
    FieldsWithin(bytes);
    var typeflag, size := Field(bytes, TYPEFLAG)[0], ParseOctal(Field(bytes, SIZE), 0, 0);
    && Field(bytes, MAGIC) == USTAR + [NUL] && Field(bytes, VERSION) == [DIGIT0, DIGIT0]
    && ParseOctal(Field(bytes, CHKSUM), 0, 0) == Some(Checksum(bytes, HEADER_SIZE))
    && Field(bytes, NAME)[99] == NUL && Field(bytes, PREFIX)[0] == NUL
    && (typeflag == DIRECTORY || (typeflag == REGULAR && size.Some? && size.value <= INT_MAX))
  }

  lemma AcceptedExactly(bytes: seq<byte>)
    requires |bytes| == HEADER_SIZE
    ensures Parse(bytes).Archived? <==> Acceptable(bytes)
    ensures Parse(bytes).Archived? ==>
      var p := Parse(bytes);
      && [p.typeflag] == bytes[156..157] && p.name == Strip(UpToNul(bytes[..100]))
      && (p.typeflag == DIRECTORY ==> p.size == 0)
      && (p.typeflag == REGULAR ==> ParseOctal(bytes[124..136], 0, 0) == Some(p.size))
  {
    hide ParseOctal, Checksum, Strip, UpToNul;
    HeaderSize();
    FieldPlaces();
  }

  /** A header is refused for the first of these reasons that there is. */
  lemma RefusedBecause(bytes: seq<byte>)
    requires |bytes| == HEADER_SIZE
    ensures var p, sum := Parse(bytes), ParseOctal(bytes[148..156], 0, 0);
      var size, typeflag := ParseOctal(bytes[124..136], 0, 0), bytes[156];
      var ok1 := bytes[257..263] == USTAR + [NUL];
      var ok2 := ok1 && bytes[263] == DIGIT0 && bytes[264] == DIGIT0;
      var ok3 := ok2 && sum.Some?;
      var ok4 := ok3 && sum.value == Checksum(bytes, HEADER_SIZE);
      var ok5 := ok4 && bytes[99] == NUL && bytes[345] == NUL;
      var ok6 := ok5 && (typeflag == REGULAR || typeflag == DIRECTORY);
      var ok7 := ok6 && (typeflag == REGULAR ==> size.Some?);
      && (p == Bad("not a ustar archive") <==> !ok1)
      && (p == Bad("invalid ustar version") <==> ok1 && !ok2)
      && (p == Bad("corrupt chksum field") <==> ok2 && !ok3)
      && (p == Bad("checksum mismatch") <==> ok3 && !ok4)
      && (p == Bad("file name too long") <==> ok4 && !ok5)
      && (p == Bad("unimplemented file type") <==> ok5 && !ok6)
      && (p == Bad("corrupt file size field") <==> ok6 && !ok7)
      && (p == Bad("file too large") <==> ok7 && typeflag == REGULAR && size.value > INT_MAX)
  {
    hide ParseOctal, Checksum, Strip, UpToNul;
    HeaderSize();
    FieldsWithin(bytes);
    FieldPlaces();
    MessagesDiffer();
    assert bytes[263..265] == [bytes[263], bytes[264]];
  }

  lemma FieldPlaces()
    ensures Ofs(SIZE) == 124 && Ofs(TYPEFLAG) == 156 && Ofs(MAGIC) == 257 && Ofs(VERSION) == 263 && Ofs(PREFIX) == 345
  {
    assert Ofs(4) == 124;
    assert Ofs(8) == 157;
    assert Ofs(12) == 297;
  }

  lemma MessagesDiffer()
    ensures |"not a ustar archive"| == 19 && |"invalid ustar version"| == 21 && |"corrupt chksum field"| == 20
    ensures |"checksum mismatch"| == 17 && |"file name too long"| == 18 && |"unimplemented file type"| == 23
    ensures "corrupt file size field"[0] != "unimplemented file type"[0] && |"file too large"| == 14
  {
  }

  /** The name of an accepted file is stripped already: it is not absolute and does not
      begin by leading upward, and it fits a header again. */
  lemma AcceptedNameIsSafe(bytes: seq<byte>)
    requires |bytes| == HEADER_SIZE && Parse(bytes).Archived?
    ensures var p := Parse(bytes);
      && !AllZeros(bytes) && CString(p.name) && 0 < |p.name| <= 99
      && !Antisocial(p.name) && p.name != [DOT, DOT] && Strip(p.name) == p.name && p.size <= INT_MAX
  {
    HeaderSize();
    FieldsWithin(bytes);
    AcceptedExactly(bytes);
    var field := Field(bytes, NAME);
    assert field[99] == NUL;
    EndsBefore(field, 99);
    StripOnce(UpToNul(field));
    assert Field(bytes, MAGIC)[0] == USTAR[0];
    assert bytes[Ofs(MAGIC)] != NUL;
  }

  lemma {:induction false} EndsBefore(s: seq<byte>, k: nat)
    requires k < |s| && s[k] == NUL
    ensures |UpToNul(s)| <= k
  {
    if k > 0 && s[0] != NUL {
      EndsBefore(s[1..], k - 1);
    }
  }

  lemma FieldsWithin(bytes: seq<byte>)
    requires |bytes| == HEADER_SIZE
    ensures Ofs(NAME) + Len(NAME) <= HEADER_SIZE && Ofs(SIZE) + Len(SIZE) <= HEADER_SIZE
    ensures Ofs(CHKSUM) + Len(CHKSUM) <= HEADER_SIZE && Ofs(TYPEFLAG) + Len(TYPEFLAG) <= HEADER_SIZE
    ensures Ofs(MAGIC) + Len(MAGIC) <= HEADER_SIZE && Ofs(VERSION) + Len(VERSION) <= HEADER_SIZE
    ensures Ofs(PREFIX) + Len(PREFIX) <= HEADER_SIZE
  {
    HeaderSize();
    assert Ofs(11) == 265;
    assert Ofs(16) == 500;
  }

  /** is_all_zeros */
  method IsAllZeros(s: seq<byte>) returns (r: bool)
    ensures r <==> AllZeros(s)
  {
    for i := 0 to |s|
      invariant forall j :: 0 <= j < i ==> s[j] == NUL
    {
      if s[i] != NUL {
        return false;
      }
    }
    r := true;
  }

  /** ustar_parse_header */
  method ParseHeader(bytes: seq<byte>) returns (r: Parsed)
    requires |bytes| == HEADER_SIZE
    ensures r == if AllZeros(bytes) then EndOfArchive else Parse(bytes)
  {
    var empty := IsAllZeros(bytes);
    if empty {
      return EndOfArchive;
    }
    FieldsWithin(bytes);
    HeaderSize();
    if Field(bytes, MAGIC) != USTAR + [NUL] {
      return Bad("not a ustar archive");
    } else if Field(bytes, VERSION) != [DIGIT0, DIGIT0] {
      return Bad("invalid ustar version");
    }
    var chksum := ParseOctalField(Field(bytes, CHKSUM));
    if chksum.None? {
      return Bad("corrupt chksum field");
    }
    var sum := CalculateChksum(bytes);
    if chksum.value != sum {
      return Bad("checksum mismatch");
    } else if Field(bytes, NAME)[99] != NUL || Field(bytes, PREFIX)[0] != NUL {
      return Bad("file name too long");
    }
    var typeflag := Field(bytes, TYPEFLAG)[0];
    if typeflag != REGULAR && typeflag != DIRECTORY {
      return Bad("unimplemented file type");
    }
    var size := 0;
    if typeflag == REGULAR {
      var field := ParseOctalField(Field(bytes, SIZE));
      if field.None? {
        return Bad("corrupt file size field");
      } else if field.value > INT_MAX {
        return Bad("file too large");
      }
      size := field.value;
    }
    var name := StripAntisocialPrefixes(UpToNul(Field(bytes, NAME)));
    r := Archived(name, typeflag, size);
  }

  // ------------------------------------------------------------- round trip

  lemma {:induction false} UpToNulOfCopied(s: seq<byte>, zeros: seq<byte>)
    requires CString(s) && |zeros| > 0 && zeros[0] == NUL
    ensures UpToNul(s + zeros) == s
  {
    if s == [] {
      assert s + zeros == zeros;
    } else {
      UpToNulOfCopied(s[1..], zeros);
      assert (s + zeros)[1..] == s[1..] + zeros;
    }
  }

  /** What a made header's fields look like from its bytes. */
  lemma MadeFields(h: seq<seq<byte>>, name: seq<byte>, typeflag: byte, size: nat)
    requires Made(h, name, typeflag, size)
    ensures Fitting(h) && |Bytes(h, FIELDS)| == HEADER_SIZE
    ensures forall k: nat :: k < FIELDS ==>
      Ofs(k) + Len(k) <= HEADER_SIZE && Field(Bytes(h, FIELDS), k) == h[k]
  {
    var h0 := h[CHKSUM := Dup(NUL, 8)];
    forall k | 0 <= k < FIELDS ensures |h[k]| == Len(k) {
      assert k != CHKSUM ==> h[k] == h0[k];
    }
    forall k: nat | k < FIELDS
      ensures Ofs(k) + Len(k) <= HEADER_SIZE && Field(Bytes(h, FIELDS), k) == h[k]
    {
      FieldOfBytes(h, k);
    }
  }

  /** Parsing undoes making: the stripped name comes back, and so do the type and,
      of a regular file, the size, which fails to exactly when it was negative. */
  lemma RoundTrip(fileName: seq<byte>, typeflag: byte, size: int, h: seq<seq<byte>>)
    requires CString(fileName) && (typeflag == REGULAR || typeflag == DIRECTORY)
    requires -INT_MAX - 1 <= size <= INT_MAX
    requires Made(h, Strip(fileName), typeflag, Unsigned(size))
    ensures |Bytes(h, FIELDS)| == HEADER_SIZE && !AllZeros(Bytes(h, FIELDS))
    ensures typeflag == DIRECTORY ==> Parse(Bytes(h, FIELDS)) == Archived(Strip(fileName), DIRECTORY, 0)
    ensures typeflag == REGULAR && size >= 0 ==> Parse(Bytes(h, FIELDS)) == Archived(Strip(fileName), REGULAR, size)
    ensures typeflag == REGULAR && size < 0 ==> Parse(Bytes(h, FIELDS)) == Bad("file too large")
  {
    hide Bytes, Checksum, Octal, Strip, UpToNul, ParseOctal, Ofs, Field, Power8, Fitting;
    var name, bytes := Strip(fileName), Bytes(h, FIELDS);
    MadeFields(h, name, typeflag, Unsigned(size));
    StripOnce(fileName);
    OctalFits();
    ParsePrinted(Checksum(bytes, HEADER_SIZE), 7);
    ParsePrinted(Unsigned(size), 11);
    UpToNulOfCopied(name, Dup(NUL, 100 - |name|));
    MagicNotZero(h, bytes);
  }

  lemma MagicNotZero(h: seq<seq<byte>>, bytes: seq<byte>)
    requires |h| == FIELDS && |bytes| == HEADER_SIZE && Ofs(MAGIC) + Len(MAGIC) <= HEADER_SIZE
    requires Field(bytes, MAGIC) == Copied(USTAR, 6)
    ensures !AllZeros(bytes)
  {
    assert Field(bytes, MAGIC)[0] == bytes[Ofs(MAGIC)];
  }
}
