/** The few string operations of Go's `strings` and `strconv` packages that the modelled code uses. */
module Text {
  import opened Calendar

  /** strings.Split with a one-character separator. */
  function Split(s: string, c: char): (parts: seq<string>)
    ensures |parts| >= 1
  {
    if s == "" then [""]
    else
      var rest := Split(s[1..], c);
      if s[0] == c then [""] + rest else [[s[0]] + rest[0]] + rest[1..]
  }

  function NonEmpty(parts: seq<string>): seq<string> {
    if parts == [] then []
    else (if parts[0] == "" then [] else [parts[0]]) + NonEmpty(parts[1..])
  }

  /** strings.FieldsFunc for one separator: empty pieces disappear. */
  function FieldsBy(s: string, c: char): seq<string> {
    NonEmpty(Split(s, c))
  }

  function Join(parts: seq<string>, c: char): string
    requires |parts| >= 1
  {
    if |parts| == 1 then parts[0] else parts[0] + [c] + Join(parts[1..], c)
  }

  lemma {:induction false} SplitOne(s: string, c: char)
    requires c !in s
    ensures Split(s, c) == [s]
  {
    if s != "" {
      SplitOne(s[1..], c);
      assert [s[0]] + s[1..] == s;
    }
  }

  lemma {:induction false} JoinSplit(s: string, c: char)
    ensures Join(Split(s, c), c) == s
  {
    if s != "" {
      var rest := Split(s[1..], c);
      JoinSplit(s[1..], c);
      if s[0] == c {
        assert ([""] + rest)[1..] == rest;
      } else {
        assert ([[s[0]] + rest[0]] + rest[1..])[1..] == rest[1..];
        if |rest| > 1 {
          assert Join([[s[0]] + rest[0]] + rest[1..], c) == [s[0]] + Join(rest, c);
        }
      }
    }
  }

  lemma {:induction false} SplitPieces(s: string, c: char)
    ensures forall p <- Split(s, c) :: c !in p
    ensures |Split(s, c)| == 1 <==> c !in s
  {
    if s != "" {
      SplitPieces(s[1..], c);
      var rest := Split(s[1..], c);
      assert rest[0] in rest;
      assert s[0] in s && forall x <- s :: x == s[0] || x in s[1..];
    }
  }

  lemma {:induction false} SplitCons(head: string, s: string, c: char)
    requires c !in head
    ensures Split(head + [c] + s, c) == [head] + Split(s, c)
  {
    if head == "" {
      assert head + [c] + s == [c] + s;
    } else {
      SplitCons(head[1..], s, c);
      assert (head + [c] + s)[1..] == head[1..] + [c] + s;
      assert [head[0]] + head[1..] == head;
    }
  }

  lemma {:induction false} SplitJoin(parts: seq<string>, c: char)
    requires |parts| >= 1
    requires forall p <- parts :: c !in p
    ensures Split(Join(parts, c), c) == parts
  {
    if |parts| == 1 {
      SplitOne(parts[0], c);
    } else {
      SplitJoin(parts[1..], c);
      SplitCons(parts[0], Join(parts[1..], c), c);
    }
  }

  lemma {:induction false} NonEmptyAll(parts: seq<string>)
    requires "" !in parts
    ensures NonEmpty(parts) == parts
  {
    if parts != [] {
      NonEmptyAll(parts[1..]);
    }
  }

  lemma {:induction false} NonEmptyNone(parts: seq<string>)
    ensures NonEmpty(parts) == [] <==> forall p <- parts :: p == ""
  {
    if parts != [] {
      NonEmptyNone(parts[1..]);
      assert forall p <- parts :: p == parts[0] || p in parts[1..];
      assert parts[0] in parts && forall p <- parts[1..] :: p in parts;
    }
  }

  /** A field splits into no piece at all exactly when it holds nothing but separators. */
  lemma {:induction false} FieldsByEmpty(s: string, c: char)
    ensures FieldsBy(s, c) == [] <==> forall x <- s :: x == c
  {
    NonEmptyNone(Split(s, c));
    if s != "" {
      var rest := Split(s[1..], c);
      FieldsByEmpty(s[1..], c);
      NonEmptyNone(rest);
      if s[0] == c {
        assert Split(s, c)[1..] == rest;
      } else {
        assert Split(s, c)[0] != "";
        assert Split(s, c)[0] in Split(s, c);
      }
      assert s[0] in s && forall x <- s :: x == s[0] || x in s[1..];
      assert forall x <- s[1..] :: x in s;
    }
  }

  predicate IsSpace(c: char) {
    c == ' ' || c == '\t' || c == '\n' || c == '\r' || c == '\U{000b}' || c == '\U{000c}'
  }

  /** strings.TrimSpace. */
  function TrimSpace(s: string): string {
    if s != "" && IsSpace(s[0]) then TrimSpace(s[1..])
    else if s != "" && IsSpace(s[|s| - 1]) then TrimSpace(s[..|s| - 1])
    else s
  }

  predicate NoSpace(s: string) {
    forall c <- s :: !IsSpace(c)
  }

  lemma TrimNothing(s: string)
    requires NoSpace(s)
    ensures TrimSpace(s) == s
  {
  }

  function Blank(s: string): (t: string)
    ensures |t| == |s| && forall i :: 0 <= i < |s| ==> t[i] == if IsSpace(s[i]) then ' ' else s[i]
  {
    if s == "" then "" else [if IsSpace(s[0]) then ' ' else s[0]] + Blank(s[1..])
  }

  /** strings.Fields: the pieces between runs of white space. */
  function Words(s: string): seq<string> {
    FieldsBy(Blank(s), ' ')
  }

  lemma {:induction false} OnlySpaces(parts: seq<string>)
    requires parts != [] && forall p <- parts :: NoSpace(p)
    ensures parts[0] <= Join(parts, ' ')
    ensures forall c <- Join(parts, ' ') :: IsSpace(c) ==> c == ' '
  {
    assert parts[0] in parts;
    if |parts| > 1 {
      OnlySpaces(parts[1..]);
    }
  }

  lemma WordsOfJoin(parts: seq<string>)
    requires parts != [] && forall p <- parts :: p != "" && NoSpace(p)
    ensures Words(Join(parts, ' ')) == parts
  {
    var s := Join(parts, ' ');
    OnlySpaces(parts);
    assert forall i :: 0 <= i < |s| ==> s[i] in s;
    assert Blank(s) == s;
    hide Join, Split, NonEmpty, Blank;
    SplitJoin(parts, ' ');
    NonEmptyAll(parts);
  }

  function LowerChar(c: char): char {
    if 'A' <= c <= 'Z' then c - 'A' + 'a' else c
  }

  /** strings.ToLower on ASCII. */
  function ToLower(s: string): (t: string)
    ensures |t| == |s|
    ensures forall i :: 0 <= i < |s| ==> t[i] == LowerChar(s[i])
  {
    if s == "" then "" else [LowerChar(s[0])] + ToLower(s[1..])
  }

  lemma LowerConcat(a: string, b: string)
    ensures ToLower(a + b) == ToLower(a) + ToLower(b)
  {
    hide ToLower, LowerChar;
    var x, y := ToLower(a + b), ToLower(a) + ToLower(b);
    assert forall i :: 0 <= i < |x| ==> x[i] == y[i];
  }

  lemma LowerKeeps(s: string, c: char)
    requires forall x: char :: LowerChar(x) == c <==> x == c
    ensures c in ToLower(s) <==> c in s
  {
    if c in s {
      var i :| 0 <= i < |s| && s[i] == c;
      assert ToLower(s)[i] == c;
    }
    if c in ToLower(s) {
      var i :| 0 <= i < |s| && ToLower(s)[i] == c;
      assert s[i] == c;
    }
  }

  predicate NoCapitals(s: string) {
    forall c <- s :: LowerChar(c) == c
  }

  lemma LowerHasNoCapitals(s: string)
    ensures NoCapitals(ToLower(s))
  {
  }

  lemma LowerFixed(s: string)
    requires NoCapitals(s)
    ensures ToLower(s) == s
  {
    assert forall i :: 0 <= i < |s| ==> s[i] in s;
  }

  predicate IsDigit(c: char) {
    '0' <= c <= '9'
  }

  predicate AllDigits(s: string) {
    forall c <- s :: IsDigit(c)
  }

  function DigitsValue(s: string): (n: nat)
    requires AllDigits(s)
  {
    if s == "" then 0
    else
      assert s[|s| - 1] in s;
      DigitsValue(s[..|s| - 1]) * 10 + (s[|s| - 1] - '0') as nat
  }

  const MAX_INT: int := 0x7fff_ffff_ffff_ffff

  /** strconv.Atoi: an optional sign, then at least one digit, within 64 bits. */
  function Atoi(s: string): (r: Option<int>)
    ensures r.Some? ==> -MAX_INT - 1 <= r.value <= MAX_INT
  {
    var signed := s != "" && (s[0] == '-' || s[0] == '+');
    var digits := if signed then s[1..] else s;
    if digits == "" || !AllDigits(digits) then None
    else
      var n: int := if signed && s[0] == '-' then 0 - DigitsValue(digits) else DigitsValue(digits);
      if -MAX_INT - 1 <= n <= MAX_INT then Some(n) else None
  }

  /** strconv.Itoa of a natural number. */
  function Itoa(n: nat): (s: string)
    ensures s != "" && AllDigits(s) && DigitsValue(s) == n
  {
    var last := [(n % 10) as char + '0'];
    if n < 10 then
      assert last[..0] == "";
      last
    else
      var s := Itoa(n / 10) + last;
      assert s[..|s| - 1] == Itoa(n / 10);
      s
  }

  lemma AtoiItoa(n: nat)
    requires n <= MAX_INT
    ensures Atoi(Itoa(n)) == Some(n)
  {
    assert Itoa(n)[0] in Itoa(n);
  }

  /** What parses as a number holds only digits after its first character. */
  lemma AtoiShape(s: string)
    requires Atoi(s).Some?
    ensures s != "" && (IsDigit(s[0]) || s[0] == '-' || s[0] == '+')
    ensures forall i :: 1 <= i < |s| ==> IsDigit(s[i])
    ensures '/' !in s && ',' !in s && '*' !in s && '?' !in s
    ensures '-' in s ==> s[0] == '-'
  {
    if s != "" && (s[0] == '-' || s[0] == '+') {
      assert forall i :: 1 <= i < |s| ==> s[i] == s[1..][i - 1];
    } else {
      assert forall i :: 0 <= i < |s| ==> s[i] in s;
    }
  }

  // ---------- order ----------

  /** Go's `<` on strings. */
  predicate Less(s: string, t: string) {
    t != [] && (s == [] || s[0] < t[0] || (s[0] == t[0] && Less(s[1..], t[1..])))
  }

  lemma LessFirst(c: char, s: string, d: char, t: string)
    ensures Less([c] + s, [d] + t) <==> c < d || (c == d && Less(s, t))
  {
    assert ([c] + s)[1..] == s && ([d] + t)[1..] == t;
  }

  lemma DigitOrder(m: int, n: int)
    requires 0 <= m <= 9 && 0 <= n <= 9
    ensures (Digit(m) < Digit(n) <==> m < n) && (Digit(m) == Digit(n) <==> m == n)
  {
  }

  function Digit(n: int): char
    requires 0 <= n <= 9
  {
    ['0', '1', '2', '3', '4', '5', '6', '7', '8', '9'][n]
  }

  /** A strict total order, in the form sorting needs. */
  lemma {:induction false} LessOrder(s: string, t: string, u: string)
    ensures Less(s, t) ==> !Less(t, s)
    ensures !Less(t, s) && !Less(u, t) ==> !Less(u, s)
  {
    if s != [] {
      LessOrder(s[1..], if t != [] then t[1..] else [], if u != [] then u[1..] else []);
    }
  }

  lemma {:induction false} LessTotal(s: string, t: string)
    ensures Less(s, t) || s == t || Less(t, s)
    ensures !Less(s, s)
  {
    if s != [] {
      LessTotal(s[1..], if t != [] then t[1..] else s[1..]);
      if t != [] && s[0] == t[0] && s[1..] == t[1..] {
        assert s == [s[0]] + s[1..] && t == [t[0]] + t[1..];
      }
    }
  }

  lemma {:induction false} CommonPrefix(p: string, s: string, t: string)
    ensures Less(p + s, p + t) <==> Less(s, t)
  {
    if p == [] {
      assert p + s == s && p + t == t;
    } else {
      assert (p + s)[1..] == p[1..] + s && (p + t)[1..] == p[1..] + t;
      CommonPrefix(p[1..], s, t);
    }
  }
}
