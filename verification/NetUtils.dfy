/** applications/services/net/net_utils/net_utils.c: the IPv4 text parser and printer. */
module NetUtils {
  /** A C string without its terminator. */
  type CString = s: string | '\0' !in s

  datatype Address = Address(a: nat, b: nat, c: nat, d: nat)

  /** The character a C pointer sees: the terminator stands at the end. */
  function At(s: CString, p: nat): char
    requires p <= |s|
  {
    if p < |s| then s[p] else '\0'
  }

  // ----- The grammar -----

  predicate IsDigit(c: char) {
    '0' <= c <= '9'
  }

  predicate IsBlank(c: char) {
    c == ' ' || c == '\t'
  }

  predicate EndsAddress(c: char) {
    c in {'\0', ' ', '\t', '\r', '\n'}
  }

  function Digit(c: char): nat
    requires IsDigit(c)
  {
    c as int - '0' as int
  }

  /** The decimal value of a run of digits. */
  function Value(run: string): nat
    requires forall k :: 0 <= k < |run| ==> IsDigit(run[k])
  {
    if run == [] then 0 else 10 * Value(run[..|run| - 1]) + Digit(run[|run| - 1])
  }

  /** s[i..j] is a non-empty run of digits with value v, at most 255. */
  predicate IsOctet(s: CString, i: nat, j: nat, v: nat) {
    && i < j <= |s|
    && (forall k :: i <= k < j ==> IsDigit(s[k]))
    && Value(s[i..j]) == v <= 255
  }

  /** One of the four fields: an octet and what must follow it. */
  predicate IsField(s: CString, i: nat, j: nat, v: nat, dot: bool) {
    IsOctet(s, i, j, v) && if dot then At(s, j) == '.' else EndsAddress(At(s, j))
  }

  predicate IsMargin(s: CString, i: nat) {
    i <= |s| && forall k :: 0 <= k < i ==> IsBlank(s[k])
  }

  /** Where the four runs start and end. */
  datatype Cuts = Cuts(i0: nat, j0: nat, j1: nat, j2: nat, j3: nat)

  /** The whole text: blanks, four octets separated by dots, then the end or white space. */
  predicate IsAddress(s: CString, t: Cuts, ip: Address) {
    && IsMargin(s, t.i0)
    && IsField(s, t.i0, t.j0, ip.a, true)
    && IsField(s, t.j0 + 1, t.j1, ip.b, true)
    && IsField(s, t.j1 + 1, t.j2, ip.c, true)
    && IsField(s, t.j2 + 1, t.j3, ip.d, false)
  }

  ghost predicate Denotes(s: CString, ip: Address) {
    exists t :: IsAddress(s, t, ip)
  }

  /** The run of an octet is the longest one: its start determines its end and value. */
  lemma OctetUnique(s: CString, i: nat, j: nat, v: nat, j': nat, v': nat)
    requires IsOctet(s, i, j, v) && !IsDigit(At(s, j))
    requires IsOctet(s, i, j', v') && !IsDigit(At(s, j'))
    ensures j == j' && v == v'
  {
  }

  lemma FieldUnique(s: CString, i: nat, j: nat, v: nat, j': nat, v': nat, dot: bool)
    requires IsField(s, i, j, v, dot) && IsField(s, i, j', v', dot)
    ensures j == j' && v == v'
  {
    OctetUnique(s, i, j, v, j', v');
  }

  /** The first field starts right after the blanks. */
  lemma MarginUnique(s: CString, i: nat, j: nat, v: nat, i': nat)
    requires IsMargin(s, i) && IsField(s, i, j, v, true)
    requires IsMargin(s, i') && !IsBlank(At(s, i'))
    ensures i == i'
  {
    assert IsDigit(s[i]);
  }

  /** A text denotes at most one address. */
  lemma DenotesUnique(s: CString, x: Address, y: Address)
    requires Denotes(s, x) && Denotes(s, y)
    ensures x == y
  {
    hide IsMargin, IsField;
    var t: Cuts :| IsAddress(s, t, x);
    var u: Cuts :| IsAddress(s, u, y);
    FieldNotBlank(s, u.i0, u.j0, y.a);
    MarginUnique(s, t.i0, t.j0, x.a, u.i0);
    FieldUnique(s, t.i0, t.j0, x.a, u.j0, y.a, true);
    FieldUnique(s, t.j0 + 1, t.j1, x.b, u.j1, y.b, true);
    FieldUnique(s, t.j1 + 1, t.j2, x.c, u.j2, y.c, true);
    FieldUnique(s, t.j2 + 1, t.j3, x.d, u.j3, y.d, false);
  }

  lemma FieldNotBlank(s: CString, i: nat, j: nat, v: nat)
    requires IsField(s, i, j, v, true)
    ensures i <= |s| && !IsBlank(At(s, i))
  {
    assert IsDigit(s[i]);
  }

  // ----- The parser -----

  lemma {:induction false} ValueMonotone(s: CString, i: nat, j: nat, k: nat)
    requires i <= j <= k <= |s| && forall m :: i <= m < k ==> IsDigit(s[m])
    ensures Value(s[i..j]) <= Value(s[i..k])
  {
    if j < k {
      ValueMonotone(s, i, j, k - 1);
      assert s[i..k][..k - i - 1] == s[i..k - 1];
    }
  }

  /** What parsing an octet at `start` must answer. */
  ghost predicate OctetResult(s: CString, start: nat, ok: bool, p: nat, v: nat) {
    if ok then IsOctet(s, start, p, v) && !IsDigit(At(s, p))
    else forall j, w :: IsOctet(s, start, j, w) ==> IsDigit(At(s, j))
  }

  /** A run whose value already exceeds 255 is not the start of any octet. */
  lemma TooLarge(s: CString, start: nat, p: nat)
    requires start < p <= |s| && (forall k :: start <= k < p ==> IsDigit(s[k])) && Value(s[start..p]) > 255
    ensures forall j, w :: IsOctet(s, start, j, w) ==> IsDigit(At(s, j))
  {
    forall j, w | IsOctet(s, start, j, w)
      ensures IsDigit(At(s, j))
    {
      if p <= j {
        ValueMonotone(s, start, p, j);
        assert false;
      }
    }
  }

  /** parse_octet: a non-empty run of digits up to 255; the pointer then stands after it. */
  method ParseOctet(s: CString, start: nat) returns (ok: bool, p: nat, value: nat)
    requires start <= |s|
    ensures OctetResult(s, start, ok, p, value)
  {
    p := start;
    value := 0;
    var digitCount := 0;
    assert s[start..start] == [];
    while '0' <= At(s, p) <= '9'
      invariant start <= p <= |s| && digitCount == p - start
      invariant forall k :: start <= k < p ==> IsDigit(s[k])
      invariant value == Value(s[start..p]) <= 255
      decreases |s| - p
    {
      assert s[start..p + 1][..p - start] == s[start..p];
      value := value * 10 + (At(s, p) as int - '0' as int);
      p := p + 1;
      digitCount := digitCount + 1;
      if value > 255 {
        TooLarge(s, start, p);
        return false, p, value;
      }
    }
    ok := digitCount != 0;
  }

  /** An octet and the test of the character after it. */
  method ParseField(s: CString, start: nat, dot: bool) returns (ok: bool, p: nat, value: nat)
    requires start <= |s|
    ensures ok ==> IsField(s, start, p, value, dot)
    ensures !ok ==> forall j, w :: !IsField(s, start, j, w, dot)
  {
    ok, p, value := ParseOctet(s, start);
    if ok {
      forall j, w | IsField(s, start, j, w, dot)
        ensures j == p
      {
        OctetUnique(s, start, p, value, j, w);
      }
      var last := At(s, p);
      ok := if dot then last == '.'
            else last == '\0' || last == ' ' || last == '\t' || last == '\r' || last == '\n';
    }
  }

  method SkipBlanks(s: CString) returns (i: nat)
    ensures IsMargin(s, i) && !IsBlank(At(s, i))
  {
    i := 0;
    while At(s, i) == ' ' || At(s, i) == '\t'
      invariant IsMargin(s, i)
      decreases |s| - i
    {
      i := i + 1;
    }
  }

  lemma FieldEnd(s: CString, i: nat, j: nat, v: nat)
    requires IsField(s, i, j, v, true)
    ensures j < |s|
  {
  }

  /** string_to_ip, `ok` for 0: accepts exactly the texts of the grammar, with their octets. */
  method StringToIp(s: CString) returns (ok: bool, ip: Address)
    ensures ok ==> Denotes(s, ip)
    ensures !ok ==> forall x :: !Denotes(s, x)
  {
    hide IsMargin, IsField;
    ok, ip := false, Address(0, 0, 0, 0);
    var i0 := SkipBlanks(s);
    forall t, x | IsAddress(s, t, x) ensures t.i0 == i0 {
      MarginUnique(s, t.i0, t.j0, x.a, i0);
    }
    var ok0, j0, a := ParseField(s, i0, true);
    if !ok0 {
      return;
    }
    forall t, x | IsAddress(s, t, x) ensures t.j0 == j0 {
      FieldUnique(s, i0, t.j0, x.a, j0, a, true);
    }
    FieldEnd(s, i0, j0, a);
    var ok1, j1, b := ParseField(s, j0 + 1, true);
    if !ok1 {
      return;
    }
    forall t, x | IsAddress(s, t, x) ensures t.j1 == j1 {
      FieldUnique(s, j0 + 1, t.j1, x.b, j1, b, true);
    }
    FieldEnd(s, j0 + 1, j1, b);
    var ok2, j2, c := ParseField(s, j1 + 1, true);
    if !ok2 {
      return;
    }
    forall t, x | IsAddress(s, t, x) ensures t.j2 == j2 {
      FieldUnique(s, j1 + 1, t.j2, x.c, j2, c, true);
    }
    FieldEnd(s, j1 + 1, j2, c);
    var ok3, j3, d := ParseField(s, j2 + 1, false);
    if !ok3 {
      return;
    }
    ok, ip := true, Address(a, b, c, d);
    assert IsAddress(s, Cuts(i0, j0, j1, j2, j3), ip);
  }

  // ----- The printer -----

  /** "%u" */
  function Decimal(n: nat): (t: CString)
    ensures |t| > 0 && (forall k :: 0 <= k < |t| ==> IsDigit(t[k]))
    ensures Value(t) == n
    ensures |t| <= if n < 10 then 1 else if n < 100 then 2 else if n < 1000 then 3 else n
  {
    var last := ('0' as int + n % 10) as char;
    if n < 10 then [last] else Decimal(n / 10) + [last]
  }

  predicate InRange(ip: Address) {
    ip.a <= 255 && ip.b <= 255 && ip.c <= 255 && ip.d <= 255
  }

  /** "%u.%u.%u.%u" */
  function Print(ip: Address): (t: CString) {
    Decimal(ip.a) + "." + Decimal(ip.b) + "." + Decimal(ip.c) + "." + Decimal(ip.d)
  }

  /** The printed text and its terminator always fit 16 bytes. */
  lemma PrintFits(ip: Address)
    requires InRange(ip)
    ensures 7 <= |Print(ip)| <= 15
  {
  }

  /** A printed octet inside a longer text is a field there. */
  lemma FieldInside(before: CString, n: nat, after: CString, dot: bool)
    requires n <= 255
    requires if dot then |after| > 0 && after[0] == '.' else after == ""
    ensures var run := Decimal(n);
            IsField(before + run + after, |before|, |before| + |run|, n, dot)
  {
    var run := Decimal(n);
    assert (before + run + after)[|before|..|before| + |run|] == run;
  }

  /** Printing four octets and parsing the text gives them back. */
  lemma PrintDenotes(ip: Address)
    requires InRange(ip)
    ensures Denotes(Print(ip), ip)
  {
    var a, b, c, d := Decimal(ip.a), Decimal(ip.b), Decimal(ip.c), Decimal(ip.d);
    var s := Print(ip);
    hide IsField, IsOctet, Decimal, Value;
    var cd := c + "." + d;
    var p1, p2, p3 := a + ".", a + "." + b + ".", a + "." + b + "." + c + ".";
    FieldInside("", ip.a, "." + b + "." + cd, true);
    assert s == "" + a + ("." + b + "." + cd);
    FieldInside(p1, ip.b, "." + cd, true);
    assert s == p1 + b + ("." + cd);
    FieldInside(p2, ip.c, "." + d, true);
    assert s == p2 + c + ("." + d);
    FieldInside(p3, ip.d, "", false);
    assert s == p3 + d + "";
    assert IsAddress(s, Cuts(0, |a|, |p1| + |b|, |p2| + |c|, |p3| + |d|), ip);
  }

  // ----- What the parser accepts -----

  predicate NoDigitFirst(s: CString) {
    s == "" || !('0' <= s[0] <= '9')
  }

  /** A number in a longer text, not followed by a digit, is read as a whole or not at all. */
  lemma FieldIff(before: CString, n: nat, after: CString, j: nat, v: nat, dot: bool)
    requires NoDigitFirst(after)
    ensures var s, end := before + Decimal(n) + after, |before| + |Decimal(n)|;
            IsField(s, |before|, j, v, dot) <==>
              && j == end && v == n <= 255
              && if dot then after != "" && after[0] == '.' else after == "" || after[0] in {' ', '\t', '\r', '\n'}
  {
    var run := Decimal(n);
    var s, i, end := before + run + after, |before|, |before| + |run|;
    hide Decimal;
    assert forall k :: i <= k < end ==> s[k] == run[k - i];
    assert s[i..end] == run;
    if after != "" {
      assert s[end] == after[0];
    }
    if IsField(s, i, j, v, dot) {
      RunUnique(s, i, j, end);
    }
  }

  lemma RunUnique(s: CString, i: nat, j: nat, end: nat)
    requires i < j <= |s| && i < end <= |s| && !IsDigit(At(s, j)) && !IsDigit(At(s, end))
    requires forall k :: i <= k < j || i <= k < end ==> IsDigit(s[k])
    ensures j == end
  {
  }

  /** Blanks, four numbers with a character after each of the first three, and a tail. */
  function Text(blanks: CString, ip: Address, x: CString, y: CString, z: CString, tail: CString): CString {
    blanks + Decimal(ip.a) + x + Decimal(ip.b) + y + Decimal(ip.c) + z + Decimal(ip.d) + tail
  }

  predicate IsSeparator(x: CString) {
    |x| == 1 && NoDigitFirst(x)
  }

  lemma BlankMargin(blanks: CString, rest: CString)
    requires forall k :: 0 <= k < |blanks| ==> blanks[k] == ' ' || blanks[k] == '\t'
    requires |rest| > 0 && IsDigit(rest[0])
    ensures IsMargin(blanks + rest, |blanks|) && !IsBlank(At(blanks + rest, |blanks|))
  {
  }

  /** What stands before and after each number of such a text. */
  datatype Parts = Parts(p1: CString, p2: CString, p3: CString, r0: CString, r1: CString, r2: CString)

  lemma Splits(k: string, a: string, x: string, b: string, y: string, c: string, z: string, d: string, tail: string)
    ensures var s := k + a + x + b + y + c + z + d + tail;
            && s == k + a + (x + b + y + c + z + d + tail) && s == (k + a + x) + b + (y + c + z + d + tail)
            && s == (k + a + x + b + y) + c + (z + d + tail) && s == (k + a + x + b + y + c + z) + d + tail
            && s == k + (a + (x + b + y + c + z + d + tail))
  {
  }

  lemma TextParts(blanks: CString, ip: Address, x: CString, y: CString, z: CString, tail: CString) returns (t: Parts)
    requires IsSeparator(x) && IsSeparator(y) && IsSeparator(z)
    ensures var s := Text(blanks, ip, x, y, z, tail);
            && s == blanks + Decimal(ip.a) + t.r0 && s == t.p1 + Decimal(ip.b) + t.r1
            && s == t.p2 + Decimal(ip.c) + t.r2 && s == t.p3 + Decimal(ip.d) + tail
            && s == blanks + (Decimal(ip.a) + t.r0)
    ensures |t.r0| > 0 && |t.r1| > 0 && |t.r2| > 0 && t.r0[0] == x[0] && t.r1[0] == y[0] && t.r2[0] == z[0]
    ensures NoDigitFirst(t.r0) && NoDigitFirst(t.r1) && NoDigitFirst(t.r2)
    ensures |t.p1| == |blanks| + |Decimal(ip.a)| + 1 && |t.p2| == |t.p1| + |Decimal(ip.b)| + 1
         && |t.p3| == |t.p2| + |Decimal(ip.c)| + 1
  {
    var a, b, c, d := Decimal(ip.a), Decimal(ip.b), Decimal(ip.c), Decimal(ip.d);
    hide Decimal;
    Splits(blanks, a, x, b, y, c, z, d, tail);
    t := Parts(blanks + a + x, blanks + a + x + b + y, blanks + a + x + b + y + c + z,
               x + b + y + c + z + d + tail, y + c + z + d + tail, z + d + tail);
  }

  /** The parser's whole language on texts of this shape: each number is at most 255, the characters
      between them are dots, and the tail is empty or starts with white space. Nothing else is denoted. */
  lemma AcceptsIff(blanks: CString, ip: Address, x: CString, y: CString, z: CString, tail: CString, other: Address)
    requires forall k :: 0 <= k < |blanks| ==> blanks[k] == ' ' || blanks[k] == '\t'
    requires IsSeparator(x) && IsSeparator(y) && IsSeparator(z) && NoDigitFirst(tail)
    ensures Denotes(Text(blanks, ip, x, y, z, tail), other) <==>
              && other == ip && ip.a <= 255 && ip.b <= 255 && ip.c <= 255 && ip.d <= 255
              && x == y == z == "."
              && (tail == "" || tail[0] in {' ', '\t', '\r', '\n'})
  {
    hide *;
    var s := Text(blanks, ip, x, y, z, tail);
    var p := TextParts(blanks, ip, x, y, z, tail);
    DecimalStarts(ip.a, p.r0);
    BlankMargin(blanks, Decimal(ip.a) + p.r0);
    var cuts := Cuts(|blanks|, |blanks| + |Decimal(ip.a)|, |p.p1| + |Decimal(ip.b)|, |p.p2| + |Decimal(ip.c)|,
                     |p.p3| + |Decimal(ip.d)|);
    forall t | IsAddress(s, t, other)
      ensures t == cuts
    {
      AddressParts(s, t, other);
      MarginUnique(s, t.i0, t.j0, other.a, |blanks|);
      FieldIff(blanks, ip.a, p.r0, t.j0, other.a, true);
      FieldIff(p.p1, ip.b, p.r1, t.j1, other.b, true);
      FieldIff(p.p2, ip.c, p.r2, t.j2, other.c, true);
      FieldIff(p.p3, ip.d, tail, t.j3, other.d, false);
    }
    CutsIff(s, cuts, other);
    AddressParts(s, cuts, other);
    FieldIff(blanks, ip.a, p.r0, cuts.j0, other.a, true);
    FieldIff(p.p1, ip.b, p.r1, cuts.j1, other.b, true);
    FieldIff(p.p2, ip.c, p.r2, cuts.j2, other.c, true);
    FieldIff(p.p3, ip.d, tail, cuts.j3, other.d, false);
    Dots(x, y, z);
  }

  lemma DecimalStarts(n: nat, after: CString)
    ensures |Decimal(n) + after| > 0 && IsDigit((Decimal(n) + after)[0])
  {
  }

  lemma AddressParts(s: CString, t: Cuts, ip: Address)
    ensures IsAddress(s, t, ip) <==>
              && IsMargin(s, t.i0)
              && IsField(s, t.i0, t.j0, ip.a, true) && IsField(s, t.j0 + 1, t.j1, ip.b, true)
              && IsField(s, t.j1 + 1, t.j2, ip.c, true) && IsField(s, t.j2 + 1, t.j3, ip.d, false)
  {
  }

  lemma Dots(x: CString, y: CString, z: CString)
    requires IsSeparator(x) && IsSeparator(y) && IsSeparator(z)
    ensures x == y == z == "." <==> x[0] == '.' && y[0] == '.' && z[0] == '.'
  {
  }

  lemma CutsIff(s: CString, t: Cuts, ip: Address)
    requires forall u :: IsAddress(s, u, ip) ==> u == t
    ensures Denotes(s, ip) <==> IsAddress(s, t, ip)
  {
    hide IsAddress;
  }

  /** Whatever text was accepted, printing its octets is defined, fits the buffer, and
      is a normal form: parsing it again gives the same octets, hence the same text. */
  lemma NormalForm(s: CString, x: Address)
    requires Denotes(s, x)
    ensures InRange(x) && |Print(x)| <= 15
    ensures Denotes(Print(x), x)
    ensures forall y :: Denotes(Print(x), y) ==> y == x && Print(y) == Print(x)
  {
    PrintDenotes(x);
    forall y | Denotes(Print(x), y)
      ensures y == x
    {
      DenotesUnique(Print(x), x, y);
    }
  }

  /** ip_to_string: refuses octets above 255 without touching the buffer; otherwise
      stores the text and its terminator, and leaves the rest of the buffer alone. */
  method IpToString(ip: Address, buf: array<char>) returns (ok: bool)
    requires buf.Length >= 16
    modifies buf
    ensures ok <==> InRange(ip)
    ensures !ok ==> buf[..] == old(buf[..])
    ensures ok ==> buf[..|Print(ip)| + 1] == Print(ip) + ['\0'] && buf[|Print(ip)| + 1..] == old(buf[|Print(ip)| + 1..])
  {
    if ip.a > 255 || ip.b > 255 || ip.c > 255 || ip.d > 255 {
      return false;
    }
    PrintFits(ip);
    var text := Print(ip) + ['\0'];
    for k := 0 to |text|
      invariant forall i :: 0 <= i < k ==> buf[i] == text[i]
      invariant forall i :: k <= i < buf.Length ==> buf[i] == old(buf[i])
    {
      buf[k] := text[k];
    }
    ok := true;
  }
}
