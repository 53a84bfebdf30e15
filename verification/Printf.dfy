/**
 The integer conversions of lib/stdio.c: format_integer and the truncation of
 vsnprintf.  Formats are given as parsed conversions.
 */
module Printf {
  import opened Common

  const SPACE: byte := 0x20
  const DIGIT0: byte := 0x30
  const COMMA: byte := 0x2c
  const MINUS_SIGN: byte := 0x2d
  const PLUS_SIGN: byte := 0x2b

  // ------------------------------------------------------------ printing

  /** A conversion's flags, width and precision; None is precision -1. */
  datatype Conversion = Conversion(
    minus: bool, plus: bool, space: bool, pound: bool, zero: bool, group: bool, width: nat, precision: Option<nat>)

  /** struct integer_base; x is NUL if there is none. */
  datatype Base = Base(base: nat, digits: seq<byte>, x: byte, groupSize: nat)

  ghost predicate GoodBase(b: Base) {
    b.base >= 2 && |b.digits| == b.base && b.groupSize > 0
  }

  /** The buffer after the first loop: the digits of the value in reverse, with
      n digits before them, and commas between groups. */
  function Reversed(value: nat, b: Base, group: bool, n: nat): seq<byte>
    requires b.base >= 2 && |b.digits| == b.base && b.groupSize > 0
    decreases value
  {
    if value == 0 then []
    else Comma(group, b.groupSize, n) + [b.digits[value % b.base]] + Reversed(value / b.base, b, group, n + 1)
  }

  function Backwards(s: seq<byte>): (r: seq<byte>)
    ensures |r| == |s| && forall i :: 0 <= i < |s| ==> r[i] == s[|s| - 1 - i]
  {
    seq(|s|, i requires 0 <= i < |s| => s[|s| - 1 - i])
  }

  function Comma(group: bool, size: nat, n: nat): seq<byte>
    requires size > 0
  {
    if group && n > 0 && n % size == 0 then [COMMA] else []
  }

  lemma OneMoreDigit(before: seq<byte>, v: nat, b: Base, group: bool, n: nat)
    requires GoodBase(b) && v > 0
    ensures 0 <= v / b.base < v
    ensures before + Reversed(v, b, group, n) ==
      before + Comma(group, b.groupSize, n) + [b.digits[v % b.base]] + Reversed(v / b.base, b, group, n + 1)
  {
    QuotientSmaller(v, b.base);
    JoinAll(before, Comma(group, b.groupSize, n), [b.digits[v % b.base]], Reversed(v / b.base, b, group, n + 1));
  }

  lemma JoinAll(w: seq<byte>, x: seq<byte>, y: seq<byte>, z: seq<byte>)
    ensures w + (x + y + z) == w + x + y + z
  {
  }

  /** The first loop of format_integer. */
  method Digits(value: nat, b: Base, group: bool) returns (buf: seq<byte>)
    requires GoodBase(b)
    ensures buf == Reversed(value, b, group, 0)
  {
    hide Reversed, Comma;
    buf := [];
    var v: nat, digitCnt: nat := value, 0;
    while v > 0
      invariant buf + Reversed(v, b, group, digitCnt) == Reversed(value, b, group, 0)
      decreases v
    {
      OneMoreDigit(buf, v, b, group, digitCnt);
      buf := buf + Comma(group, b.groupSize, digitCnt) + [b.digits[v % b.base]];
      v := v / b.base;
      digitCnt := digitCnt + 1;
    }
    NoDigits(b, group, digitCnt);
  }

  lemma NoDigits(b: Base, group: bool, n: nat)
    requires GoodBase(b)
    ensures Reversed(0, b, group, n) == []
  {
  }

  lemma QuotientSmaller(v: nat, d: nat)
    requires v > 0 && d >= 2
    ensures 0 <= v / d < v
  {
    var q := v / d;
    assert v == d * q + v % d;
    assert d * q == 2 * q + (d - 2) * q;
  }

  /** The buffer with zeros up to the precision and, with the # flag in base 8,
      one more if it does not end in a zero. */
  function WithPrecision(buf: seq<byte>, b: Base, c: Conversion): seq<byte> {
    var precision := if c.precision.None? then 1 else c.precision.value;
    var limit := if precision < 63 then precision else 63;
    var zeros := if |buf| < limit then buf + Dup(DIGIT0, limit - |buf|) else buf;
    if c.pound && b.base == 8 && (|zeros| == 0 || zeros[|zeros| - 1] != DIGIT0) then zeros + [DIGIT0] else zeros
  }

  method FillPrecision(digits: seq<byte>, b: Base, c: Conversion) returns (buf: seq<byte>)
    ensures buf == WithPrecision(digits, b, c)
  {
    buf := digits;
    var precision := if c.precision.None? then 1 else c.precision.value;
    while |buf| < precision && |buf| < 63
      invariant |buf| >= |digits| && buf == digits + Dup(DIGIT0, |buf| - |digits|)
      invariant |buf| > |digits| ==> |buf| <= precision && |buf| <= 63
      decreases 63 - |buf|
    {
      buf := buf + [DIGIT0];
    }
    if c.pound && b.base == 8 && (|buf| == 0 || buf[|buf| - 1] != DIGIT0) {
      buf := buf + [DIGIT0];
    }
  }

  /** The sign character, or NUL. */
  function Sign(isSigned: bool, negative: bool, c: Conversion): byte {
    if !isSigned then NUL
    else if c.plus then (if negative then MINUS_SIGN else PLUS_SIGN)
    else if c.space then (if negative then MINUS_SIGN else SPACE)
    else if negative then MINUS_SIGN
    else NUL
  }

  function Prefix(x: byte): seq<byte> {
    if x != NUL then [DIGIT0, x] else []
  }

  function SignPart(sign: byte): seq<byte> {
    if sign != NUL then [sign] else []
  }

  /** Sign, 0x and digits, filled up to the field width. */
  function Laid(sign: byte, x: byte, digits: seq<byte>, c: Conversion): seq<byte> {
    var used := |digits| + (if x != NUL then 2 else 0) + (if sign != NUL then 1 else 0);
    var padCnt := if c.width < used then 0 else c.width - used;
    (if !c.minus && !c.zero then Dup(SPACE, padCnt) else []) +
    SignPart(sign) +
    Prefix(x) +
    (if c.zero then Dup(DIGIT0, padCnt) else []) +
    digits +
    (if c.minus then Dup(SPACE, padCnt) else [])
  }

  // -------------------------------------------------------- reading back

  /** The digits of the base, of which the first is 0, can be told apart. */
  ghost predicate Readable(b: Base) {
    && GoodBase(b) && b.digits[0] == DIGIT0 && COMMA !in b.digits
    && NoDup(b.digits)
  }

  function DigitOf(c: byte, digits: seq<byte>): nat {
    if digits == [] || digits[0] == c then 0 else 1 + DigitOf(c, digits[1..])
  }

  /** The number that a reader sees, the first digit counting most. */
  function ReadBack(s: seq<byte>, b: Base): nat {
    if s == [] then 0
    else
      var before := ReadBack(s[..|s| - 1], b);
      var c := s[|s| - 1];
      if c == COMMA then before else OneDigitMore(before, b.base, DigitOf(c, b.digits))
  }

  function OneDigitMore(before: nat, base: nat, digit: nat): nat {
    before * base + digit
  }

  lemma QuotientAndDigit(value: nat, base: nat)
    requires base > 0
    ensures OneDigitMore(value / base, base, value % base) == value
    ensures OneDigitMore(0, base, 0) == 0
  {
  }

  lemma NothingRead(b: Base)
    ensures ReadBack(Backwards([]), b) == 0
  {
    var s: seq<byte> := [];
    assert Backwards(s) == s;
  }

  lemma {:induction false} DigitFound(digits: seq<byte>, k: nat)
    requires NoDup(digits) && k < |digits|
    ensures DigitOf(digits[k], digits) == k
  {
    if k > 0 {
      assert digits[0] != digits[k];
      DigitFound(digits[1..], k - 1);
    }
  }

  lemma LastRead(c: byte, rest: seq<byte>, b: Base)
    ensures var before := ReadBack(Backwards(rest), b);
      ReadBack(Backwards([c] + rest), b) ==
        (if c == COMMA then before else OneDigitMore(before, b.base, DigitOf(c, b.digits)))
  {
    hide OneDigitMore, DigitOf;
    var s := Backwards([c] + rest);
    assert s[..|s| - 1] == Backwards(rest);
  }

  lemma {:induction false} DigitsReadBack(value: nat, b: Base, group: bool, n: nat)
    requires Readable(b)
    ensures ReadBack(Backwards(Reversed(value, b, group, n)), b) == value
    decreases value
  {
    hide ReadBack, OneDigitMore, DigitOf, NoDup;
    if value == 0 {
      NothingRead(b);
    } else {
      QuotientSmaller(value, b.base);
      QuotientAndDigit(value, b.base);
      DigitsReadBack(value / b.base, b, group, n + 1);
      DigitFound(b.digits, value % b.base);
      OneDigitRead(value / b.base, value % b.base, b, Reversed(value / b.base, b, group, n + 1));
    }
  }

  /** One more digit in the buffer, with or without a comma. */
  lemma OneDigitRead(before: nat, d: nat, b: Base, rest: seq<byte>)
    requires Readable(b) && d < b.base && ReadBack(Backwards(rest), b) == before
    ensures ReadBack(Backwards([b.digits[d]] + rest), b) == OneDigitMore(before, b.base, d)
    ensures ReadBack(Backwards([COMMA] + [b.digits[d]] + rest), b) == OneDigitMore(before, b.base, d)
    ensures [] + [b.digits[d]] + rest == [b.digits[d]] + rest
  {
    hide ReadBack, OneDigitMore, DigitOf;
    DigitFound(b.digits, d);
    LastRead(b.digits[d], rest, b);
    LastRead(COMMA, [b.digits[d]] + rest, b);
    assert [COMMA] + [b.digits[d]] + rest == [COMMA] + ([b.digits[d]] + rest);
  }

  lemma {:induction false} LeadingZeros(buf: seq<byte>, k: nat, b: Base)
    requires Readable(b)
    ensures ReadBack(Backwards(buf + Dup(DIGIT0, k)), b) == ReadBack(Backwards(buf), b)
    decreases |buf| + k
  {
    hide ReadBack, OneDigitMore, DigitOf, NoDup;
    if buf != [] {
      LeadingZeros(buf[1..], k, b);
      LastRead(buf[0], buf[1..] + Dup(DIGIT0, k), b);
      LastRead(buf[0], buf[1..], b);
      assert buf + Dup(DIGIT0, k) == [buf[0]] + (buf[1..] + Dup(DIGIT0, k));
      assert buf == [buf[0]] + buf[1..];
    } else {
      assert buf + Dup(DIGIT0, k) == Dup(DIGIT0, k);
      NothingRead(b);
      ZerosRead(k, b);
    }
  }

  lemma {:induction false} ZerosRead(k: nat, b: Base)
    requires Readable(b)
    ensures ReadBack(Backwards(Dup(DIGIT0, k)), b) == 0
  {
    hide ReadBack, OneDigitMore, DigitOf, NoDup;
    if k == 0 {
      NothingRead(b);
      assert Dup(DIGIT0, 0) == [];
    } else {
      ZerosRead(k - 1, b);
      DigitFound(b.digits, 0);
      QuotientAndDigit(0, b.base);
      OneDigitRead(0, 0, b, Dup(DIGIT0, k - 1));
      assert Dup(DIGIT0, k) == [DIGIT0] + Dup(DIGIT0, k - 1);
    }
  }

  /** Whatever the flags and the precision, the digits printed read as the value. */
  lemma PrintedReadsBack(value: nat, b: Base, c: Conversion)
    requires Readable(b)
    ensures ReadBack(Backwards(WithPrecision(Reversed(value, b, c.group, 0), b, c)), b) == value
  {
    DigitsReadBack(value, b, c.group, 0);
    PrecisionReadsSame(Reversed(value, b, c.group, 0), b, c);
  }

  lemma PrecisionReadsSame(buf: seq<byte>, b: Base, c: Conversion)
    requires Readable(b)
    ensures ReadBack(Backwards(WithPrecision(buf, b, c)), b) == ReadBack(Backwards(buf), b)
  {
    hide ReadBack, NoDup;
    var precision := if c.precision.None? then 1 else c.precision.value;
    var limit := if precision < 63 then precision else 63;
    var zeros := if |buf| < limit then buf + Dup(DIGIT0, limit - |buf|) else buf;
    if |buf| < limit {
      LeadingZeros(buf, limit - |buf|, b);
    }
    LeadingZeros(zeros, 1, b);
    assert zeros + [DIGIT0] == zeros + Dup(DIGIT0, 1);
  }

  // ------------------------------------------------------- the whole output

  /** The digits and the characters around them can be told apart. */
  ghost predicate Scannable(b: Base) {
    && Readable(b) && SPACE !in b.digits && MINUS_SIGN !in b.digits && PLUS_SIGN !in b.digits
    && b.x !in b.digits && b.x != COMMA && b.x != SPACE
  }

  function SkipSpaces(s: seq<byte>): seq<byte> {
    if s != [] && s[0] == SPACE then SkipSpaces(s[1..]) else s
  }

  function UpToSpace(s: seq<byte>): seq<byte> {
    if s == [] || s[0] == SPACE then [] else [s[0]] + UpToSpace(s[1..])
  }

  function AfterPrefix(s: seq<byte>, x: byte): seq<byte> {
    if x != NUL && |s| >= 2 && s[0] == DIGIT0 && s[1] == x then s[2..] else s
  }

  function ScanDigits(s: seq<byte>, b: Base): nat {
    ReadBack(AfterPrefix(UpToSpace(s), b.x), b)
  }

  function Signed(negative: bool, value: nat): int {
    if negative then -(value as int) else value
  }

  /** The number that a reader of a whole output sees: past spaces, a sign perhaps, then
      0x perhaps, then digits up to a space. */
  function Scan(s: seq<byte>, b: Base): int {
    var t := SkipSpaces(s);
    if t != [] && t[0] == MINUS_SIGN then Signed(true, ScanDigits(t[1..], b))
    else if t != [] && t[0] == PLUS_SIGN then ScanDigits(t[1..], b)
    else ScanDigits(t, b)
  }

  /** Digits and commas only. */
  ghost predicate Plain(s: seq<byte>, b: Base) {
    forall i :: 0 <= i < |s| ==> s[i] in b.digits || s[i] == COMMA
  }

  lemma {:induction false} ReversedPlain(value: nat, b: Base, group: bool, n: nat)
    requires GoodBase(b)
    ensures Plain(Reversed(value, b, group, n), b)
    decreases value
  {
    if value > 0 {
      QuotientSmaller(value, b.base);
      ReversedPlain(value / b.base, b, group, n + 1);
    }
  }

  lemma PrintedPlain(value: nat, b: Base, c: Conversion)
    requires Readable(b)
    ensures Plain(Backwards(WithPrecision(Reversed(value, b, c.group, 0), b, c)), b)
  {
    ReversedPlain(value, b, c.group, 0);
    assert b.digits[0] in b.digits;
  }

  lemma {:induction false} SpacesSkipped(n: nat, t: seq<byte>)
    ensures SkipSpaces(Dup(SPACE, n) + t) == SkipSpaces(t)
  {
    if n == 0 {
      assert Dup(SPACE, n) + t == t;
    } else {
      SpacesSkipped(n - 1, t);
      assert (Dup(SPACE, n) + t)[1..] == Dup(SPACE, n - 1) + t;
    }
  }

  lemma {:induction false} WordEnds(w: seq<byte>, n: nat)
    requires SPACE !in w
    ensures UpToSpace(w + Dup(SPACE, n)) == w
  {
    if w == [] {
      assert w + Dup(SPACE, n) == Dup(SPACE, n);
    } else {
      assert w[0] in w;
      WordEnds(w[1..], n);
      assert (w + Dup(SPACE, n))[1..] == w[1..] + Dup(SPACE, n);
    }
  }

  /** The prefix and the digits. */
  lemma CoreScans(x: byte, digits: seq<byte>, right: nat, b: Base)
    requires Scannable(b) && Plain(digits, b) && (x == NUL || x == b.x)
    ensures ScanDigits(Prefix(x) + digits + Dup(SPACE, right), b) == ReadBack(digits, b)
    ensures var core := Prefix(x) + digits;
      core != [] ==> core[0] != SPACE && core[0] != MINUS_SIGN && core[0] != PLUS_SIGN
  {
    hide ReadBack, NoDup;
    assert b.digits[0] in b.digits;
    WordEnds(Prefix(x) + digits, right);
    if x != NUL {
      assert (Prefix(x) + digits)[2..] == digits;
    } else {
      assert Prefix(x) + digits == digits;
    }
  }

  /** What follows leading spaces. */
  lemma UnsignedScans(core: seq<byte>, right: nat, b: Base)
    requires core != [] ==> core[0] != SPACE && core[0] != MINUS_SIGN && core[0] != PLUS_SIGN
    ensures Scan(core + Dup(SPACE, right), b) == ScanDigits(core + Dup(SPACE, right), b)
  {
    hide ScanDigits;
    var t := core + Dup(SPACE, right);
    if core == [] {
      assert t == Dup(SPACE, right) + [];
      SpacesSkipped(right, []);
      WordEnds([], right);
      NothingToScan(t, b);
    }
  }

  lemma NothingToScan(t: seq<byte>, b: Base)
    requires UpToSpace(t) == []
    ensures ScanDigits(t, b) == ScanDigits([], b)
  {
  }

  lemma PartsScan(left: nat, sign: byte, core: seq<byte>, right: nat, b: Base)
    requires sign == NUL || sign == MINUS_SIGN || sign == PLUS_SIGN || sign == SPACE
    requires core != [] ==> core[0] != SPACE && core[0] != MINUS_SIGN && core[0] != PLUS_SIGN
    ensures var v := ScanDigits(core + Dup(SPACE, right), b);
      Scan(Dup(SPACE, left) + SignPart(sign) + core + Dup(SPACE, right), b) ==
        Signed(sign == MINUS_SIGN, v)
  {
    hide ScanDigits;
    var rest := core + Dup(SPACE, right);
    var t := SignPart(sign) + rest;
    assert Dup(SPACE, left) + SignPart(sign) + core + Dup(SPACE, right) == Dup(SPACE, left) + t;
    SpacesSkipped(left, t);
    UnsignedScans(core, right, b);
    if sign == NUL {
      assert t == rest;
    } else {
      assert t[1..] == rest;
    }
  }

  /** The zeros and the digits. */
  lemma ZerosBefore(buf: seq<byte>, zeros: nat, b: Base)
    requires Readable(b) && Plain(Backwards(buf), b)
    ensures ReadBack(Dup(DIGIT0, zeros) + Backwards(buf), b) == ReadBack(Backwards(buf), b)
    ensures Plain(Dup(DIGIT0, zeros) + Backwards(buf), b)
  {
    hide ReadBack, NoDup;
    LeadingZeros(buf, zeros, b);
    assert Backwards(buf + Dup(DIGIT0, zeros)) == Dup(DIGIT0, zeros) + Backwards(buf);
    assert b.digits[0] in b.digits;
  }

  lemma Regroup(s: seq<byte>, sign: seq<byte>, x: seq<byte>, zeros: seq<byte>, digits: seq<byte>, right: seq<byte>)
    ensures s + sign + x + zeros + digits + right == s + sign + (x + (zeros + digits)) + right
  {
    assert s + sign + x + zeros + digits == s + sign + (x + (zeros + digits));
  }

  lemma LaidParts(sign: byte, x: byte, digits: seq<byte>, c: Conversion) returns (left: nat, zeros: nat, right: nat)
    ensures Laid(sign, x, digits, c) ==
      Dup(SPACE, left) + SignPart(sign) + (Prefix(x) + (Dup(DIGIT0, zeros) + digits)) + Dup(SPACE, right)
  {
    var used := |digits| + (if x != NUL then 2 else 0) + (if sign != NUL then 1 else 0);
    var padCnt := if c.width < used then 0 else c.width - used;
    left := if !c.minus && !c.zero then padCnt else 0;
    zeros := if c.zero then padCnt else 0;
    right := if c.minus then padCnt else 0;
    assert Dup(SPACE, 0) == [] && Dup(DIGIT0, 0) == [];
    Regroup(Dup(SPACE, left), SignPart(sign), Prefix(x), Dup(DIGIT0, zeros), digits, Dup(SPACE, right));
  }

  /** Reading the output undoes printing, whatever the flags, the width and the precision. */
  lemma OutputScans(value: nat, isSigned: bool, negative: bool, b: Base, c: Conversion)
    requires Scannable(b)
    ensures var digits := Backwards(WithPrecision(Reversed(value, b, c.group, 0), b, c));
      Scan(Laid(Sign(isSigned, negative, c), if c.pound && value != 0 then b.x else NUL, digits, c), b) ==
        Signed(isSigned && negative, value)
  {
    hide Laid, WithPrecision, Reversed, Scan, ScanDigits, ReadBack, NoDup;
    var buf := WithPrecision(Reversed(value, b, c.group, 0), b, c);
    var sign, x := Sign(isSigned, negative, c), if c.pound && value != 0 then b.x else NUL;
    PrintedReadsBack(value, b, c);
    PrintedPlain(value, b, c);
    var left, zeros, right := LaidParts(sign, x, Backwards(buf), c);
    ZerosBefore(buf, zeros, b);
    CoreScans(x, Dup(DIGIT0, zeros) + Backwards(buf), right, b);
    PartsScan(left, sign, Prefix(x) + (Dup(DIGIT0, zeros) + Backwards(buf)), right, b);
  }

  /** The sign: a minus for a negative number, else what the flags ask for. */
  lemma SignMeans(isSigned: bool, negative: bool, c: Conversion)
    ensures Sign(isSigned, negative, c) == MINUS_SIGN <==> isSigned && negative
    ensures Sign(isSigned, negative, c) == PLUS_SIGN <==> isSigned && !negative && c.plus
    ensures Sign(isSigned, negative, c) == SPACE <==> isSigned && !negative && !c.plus && c.space
  {
  }

  /** The output without a field width, and with one: as wide as the field, or wider if it
      has to be; to the left with the - flag and to the right without; the zeros of the 0
      flag go between the sign or 0x and the digits. */
  lemma FieldWidth(sign: byte, x: byte, digits: seq<byte>, c: Conversion)
    requires !(c.minus && c.zero)
    ensures var out, bare := Laid(sign, x, digits, c), Laid(sign, x, digits, c.(width := 0));
      && bare == SignPart(sign) + Prefix(x) + digits
      && |out| == (if |bare| < c.width then c.width else |bare|)
      && var pad := |out| - |bare|;
         out == if c.minus then bare + Dup(SPACE, pad)
                else if c.zero then SignPart(sign) + Prefix(x) + Dup(DIGIT0, pad) + digits
                else Dup(SPACE, pad) + bare
  {
    hide Dup, SignPart, Prefix;
    PartLengths(sign, x);
    var bare := SignPart(sign) + Prefix(x) + digits;
    var padCnt := if c.width < |bare| then 0 else c.width - |bare|;
    assert Dup(SPACE, 0) == [] && Dup(DIGIT0, 0) == [];
    Sides([], SignPart(sign), Prefix(x), [], digits, []);
    Sides([], SignPart(sign), Prefix(x), [], digits, Dup(SPACE, padCnt));
    Sides([], SignPart(sign), Prefix(x), Dup(DIGIT0, padCnt), digits, []);
    Sides(Dup(SPACE, padCnt), SignPart(sign), Prefix(x), [], digits, []);
    assert bare + [] == bare;
  }

  lemma PartLengths(sign: byte, x: byte)
    ensures |SignPart(sign)| == (if sign != NUL then 1 else 0) && |Prefix(x)| == (if x != NUL then 2 else 0)
  {
  }

  lemma Sides(left: seq<byte>, sign: seq<byte>, x: seq<byte>, zeros: seq<byte>, digits: seq<byte>, right: seq<byte>)
    ensures left == [] && zeros == [] ==> left + sign + x + zeros + digits + right == sign + x + digits + right
    ensures left == [] && right == [] ==> left + sign + x + zeros + digits + right == sign + x + zeros + digits
    ensures zeros == [] && right == [] ==> left + sign + x + zeros + digits + right == left + (sign + x + digits)
  {
  }

  // ------------------------------------------------- groups, precision, buffer

  /** From the right: groups of as many digits as the base has it, a comma between any
      two and none at the end; n digits of the current group have gone by. */
  ghost predicate Grouped(buf: seq<byte>, size: nat, n: nat) {
    if buf == [] then true
    else if buf[0] == COMMA then n == size && |buf| > 1 && buf[1] != COMMA && Grouped(buf[1..], size, 0)
    else n < size && Grouped(buf[1..], size, n + 1)
  }

  /** The digits of the current group before digit number n. */
  function Place(n: nat, size: nat): nat
    requires size > 0
  {
    if n == 0 then 0 else (n - 1) % size + 1
  }

  lemma PlaceMoves(n: nat, size: nat)
    requires size > 0
    ensures n > 0 && n % size == 0 ==> Place(n, size) == size && Place(n + 1, size) == 1
    ensures !(n > 0 && n % size == 0) ==> Place(n, size) < size && Place(n + 1, size) == Place(n, size) + 1
  {
    var q, r := n / size, n % size;
    assert n == size * q + r;
    if n > 0 {
      if r == 0 {
        Difference(size, q, 1);
        Remainder(n - 1, size, q - 1, size - 1);
      } else {
        Remainder(n - 1, size, q, r - 1);
      }
    }
  }

  lemma NothingGrouped(size: nat, p: nat)
    ensures Grouped([], size, p)
  {
  }

  lemma DigitGrouped(d: byte, rest: seq<byte>, size: nat, p: nat)
    requires d != COMMA && size > 0
    ensures p < size && Grouped(rest, size, p + 1) ==> Grouped([] + [d] + rest, size, p)
    ensures Grouped(rest, size, 1) ==> Grouped([COMMA] + [d] + rest, size, size)
    ensures COMMA !in rest ==> COMMA !in [] + [d] + rest
  {
    assert [] + [d] + rest == [d] + rest && ([d] + rest)[1..] == rest;
    assert ([COMMA] + [d] + rest)[1..] == [d] + rest;
  }

  lemma Multiple(d: int, k: int)
    requires d >= 0
    ensures k >= 1 ==> d * k >= d
    ensures k <= -1 ==> d * k <= -d
  {
  }

  lemma Difference(d: nat, q: int, q': int)
    ensures d * (q - q') == d * q - d * q'
  {
  }

  lemma Remainder(n: nat, d: nat, q: int, r: nat)
    requires n == d * q + r && r < d
    ensures n % d == r
  {
    var q', r' := n / d, n % d;
    assert n == d * q' + r';
    Difference(d, q, q');
    Multiple(d, q - q');
  }

  /** The commas stand where they belong, and without the flag there are none. */
  lemma {:induction false} CommasBetweenGroups(value: nat, b: Base, group: bool, n: nat)
    requires Readable(b)
    ensures group ==> Grouped(Reversed(value, b, group, n), b.groupSize, Place(n, b.groupSize))
    ensures !group ==> COMMA !in Reversed(value, b, group, n)
    decreases value
  {
    hide NoDup, Place, Grouped;
    if value == 0 {
      NothingGrouped(b.groupSize, Place(n, b.groupSize));
    } else {
      QuotientSmaller(value, b.base);
      CommasBetweenGroups(value / b.base, b, group, n + 1);
      PlaceMoves(n, b.groupSize);
      var d := b.digits[value % b.base];
      assert d in b.digits;
      DigitGrouped(d, Reversed(value / b.base, b, group, n + 1), b.groupSize, Place(n, b.groupSize));
    }
  }

  /** Zeros in front up to the precision, which is 1 if none is given and at most 63, and
      not more; with the # flag in base 8 one more if there is none in front. */
  lemma PrecisionMeans(buf: seq<byte>, b: Base, c: Conversion)
    ensures var out, bare := Backwards(WithPrecision(buf, b, c)), Backwards(WithPrecision(buf, b, c.(pound := false)));
      && var least := Least(if c.precision.None? then 1 else c.precision.value, 63);
      && |bare| == (if |buf| < least then least else |buf|)
      && bare == Dup(DIGIT0, |bare| - |buf|) + Backwards(buf)
      && (!(c.pound && b.base == 8) ==> out == bare)
      && (c.pound && b.base == 8 ==> out == if bare != [] && bare[0] == DIGIT0 then bare else [DIGIT0] + bare)
  {
    hide Backwards, WithPrecision;
    var bare := WithPrecision(buf, b, c.(pound := false));
    PrecisionZeros(buf, b, c);
    BackwardsJoin(buf, Dup(DIGIT0, |bare| - |buf|), |bare| - |buf|);
    OneZero();
    BackwardsJoin(bare, [DIGIT0], 1);
    LastIsFirst(bare);
  }

  lemma LastIsFirst(s: seq<byte>)
    ensures |Backwards(s)| == |s| && (s != [] ==> Backwards(s)[0] == s[|s| - 1])
  {
  }

  lemma OneZero()
    ensures Dup(DIGIT0, 1) == [DIGIT0]
  {
  }

  lemma PrecisionZeros(buf: seq<byte>, b: Base, c: Conversion)
    ensures var least := Least(if c.precision.None? then 1 else c.precision.value, 63);
      var all, bare := WithPrecision(buf, b, c), WithPrecision(buf, b, c.(pound := false));
      && |bare| == (if |buf| < least then least else |buf|)
      && bare == buf + Dup(DIGIT0, |bare| - |buf|)
      && all == if c.pound && b.base == 8 && (bare == [] || bare[|bare| - 1] != DIGIT0) then bare + [DIGIT0] else bare
  {
    assert buf + Dup(DIGIT0, 0) == buf;
  }

  lemma BackwardsJoin(buf: seq<byte>, zeros: seq<byte>, k: nat)
    requires zeros == Dup(DIGIT0, k)
    ensures Backwards(buf + zeros) == zeros + Backwards(buf)
  {
  }

  lemma {:induction false} FewDigits(value: nat, b: Base, group: bool, n: nat, k: nat)
    requires GoodBase(b) && b.base >= 8 && value < Power8(k)
    ensures |Reversed(value, b, group, n)| <= 2 * k
    decreases value
  {
    if value > 0 {
      QuotientSmaller(value, b.base);
      SmallerQuotient(value, b.base);
      FewDigits(value / b.base, b, group, n + 1, k - 1);
    }
  }

  lemma SmallerQuotient(v: nat, d: nat)
    requires d >= 8
    ensures v / d <= v / 8
  {
    var q := v / d;
    assert v == d * q + v % d;
    ProductAtMost(8, d, q);
  }

  /** For every 64-bit value, base and precision the 64 bytes of the buffer suffice. */
  lemma BufferSuffices(value: nat, b: Base, c: Conversion)
    requires GoodBase(b) && b.base >= 8 && value < TWO32 * TWO32
    ensures |WithPrecision(Reversed(value, b, c.group, 0), b, c)| <= 64
  {
    assert Power8(11) == 8589934592 by {
      assert Power8(4) == 4096;
      assert Power8(8) == 16777216;
    }
    assert Power8(15) == 4096 * Power8(11);
    assert Power8(19) == 4096 * Power8(15);
    assert Power8(22) == 512 * Power8(19);
    FewDigits(value, b, c.group, 0, 22);
  }

  /** format_integer: its output scans as the number, fills the field width at the side
      that the flags say, and begins with the sign that they ask for. */
  method FormatInteger(value: nat, isSigned: bool, negative: bool, b: Base, c: Conversion) returns (out: seq<byte>)
    requires GoodBase(b)
    ensures out == Laid(Sign(isSigned, negative, c), if c.pound && value != 0 then b.x else NUL,
                        Backwards(WithPrecision(Reversed(value, b, c.group, 0), b, c)), c)
    ensures Scannable(b) ==> Scan(out, b) == Signed(isSigned && negative, value)
    ensures !(c.minus && c.zero) ==> |out| >= c.width
  {
    var sign := Sign(isSigned, negative, c);
    var x := if c.pound && value != 0 then b.x else NUL;
    var buf := Digits(value, b, c.group);
    buf := FillPrecision(buf, b, c);
    out := Laid(sign, x, Backwards(buf), c);
    if Scannable(b) {
      OutputScans(value, isSigned, negative, b, c);
    }
  }

  /** vsnprintf: as much of the output as fits, and a null byte. */
  function Stored(out: seq<byte>, bufSize: nat): (r: seq<byte>)
    requires bufSize > 0
    ensures |r| == Least(|out| + 1, bufSize) && r[..|r| - 1] == out[..|r| - 1] && r[|r| - 1] == NUL
  {
    (if |out| < bufSize then out else out[..bufSize - 1]) + [NUL]
  }

  // ------------------------------------------------------- octal both ways

  const OCTAL := Base(8, [0x30, 0x31, 0x32, 0x33, 0x34, 0x35, 0x36, 0x37], NUL, 3)

  /** The conversion %0No. */
  function ZeroFilled(width: nat): Conversion {
    Conversion(false, false, false, false, true, false, width, None)
  }

  function Power8(n: nat): nat {
    if n == 0 then 1 else 8 * Power8(n - 1)
  }

  /** The n low octal digits of a value, the highest first. */
  function Octal(value: nat, n: nat): (r: seq<byte>)
    ensures |r| == n && forall i :: 0 <= i < n ==> DIGIT0 <= r[i] < DIGIT0 + 8
  {
    if n == 0 then [] else Octal(value / 8, n - 1) + [DIGIT0 + value % 8]
  }

  lemma {:induction false} OctalZero(n: nat)
    ensures Octal(0, n) == Dup(DIGIT0, n)
  {
    if n > 0 {
      OctalZero(n - 1);
    }
  }

  /** Turned around and filled up with zeros, the digits of format_integer are
      the octal digits of the value. */
  lemma {:induction false} ReversedIsOctal(value: nat, count: nat, n: nat)
    requires value < Power8(n)
    ensures var digits := Backwards(Reversed(value, OCTAL, false, count));
      |digits| <= n && Octal(value, n) == Dup(DIGIT0, n - |digits|) + digits
  {
    if value == 0 {
      OctalZero(n);
    } else {
      ReversedIsOctal(value / 8, count + 1, n - 1);
      var more := Reversed(value / 8, OCTAL, false, count + 1);
      assert Reversed(value, OCTAL, false, count) == [DIGIT0 + value % 8] + more;
      assert Backwards([DIGIT0 + value % 8] + more) == Backwards(more) + [DIGIT0 + value % 8];
    }
  }

  lemma LaidWithZeros(digits: seq<byte>, n: nat)
    requires |digits| <= n
    ensures Laid(NUL, NUL, digits, ZeroFilled(n)) == Dup(DIGIT0, n - |digits|) + digits
  {
    var pad := Dup(DIGIT0, n - |digits|);
    assert [] + [] + [] + pad + digits + [] == pad + digits;
  }

  lemma PrecisionOfOctal(value: nat, n: nat)
    requires value < Power8(n) && n > 0
    ensures var digits := Backwards(WithPrecision(Reversed(value, OCTAL, false, 0), OCTAL, ZeroFilled(n)));
      |digits| <= n && Octal(value, n) == Dup(DIGIT0, n - |digits|) + digits
  {
    ReversedIsOctal(value, 0, n);
    var digits := Reversed(value, OCTAL, false, 0);
    if value == 0 {
      OctalZero(n);
      assert WithPrecision(digits, OCTAL, ZeroFilled(n)) == [DIGIT0];
      assert Dup(DIGIT0, n - 1) + [DIGIT0] == Dup(DIGIT0, n);
    } else {
      assert WithPrecision(digits, OCTAL, ZeroFilled(n)) == digits;
    }
  }

  /** snprintf (..., "%0No", value) of a value that fits stores its N octal digits
      and a null byte. */
  lemma PrintsOctal(value: nat, n: nat)
    requires value < Power8(n) && n > 0
    ensures Stored(Laid(NUL, NUL, Backwards(WithPrecision(Reversed(value, OCTAL, false, 0), OCTAL, ZeroFilled(n))),
                        ZeroFilled(n)), n + 1) == Octal(value, n) + [NUL]
  {
    PrecisionOfOctal(value, n);
    LaidWithZeros(Backwards(WithPrecision(Reversed(value, OCTAL, false, 0), OCTAL, ZeroFilled(n))), n);
  }

  /** snprintf (buffer, n + 1, "%0No", value) */
  method PrintOctal(value: nat, n: nat) returns (field: seq<byte>)
    requires value < Power8(n) && n > 0
    ensures field == Octal(value, n) + [NUL]
  {
    PrintsOctal(value, n);
    var out := FormatInteger(value, false, false, OCTAL, ZeroFilled(n));
    field := Stored(out, n + 1);
  }
}
