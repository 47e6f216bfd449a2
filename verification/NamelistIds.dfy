/** internal/datastore/namelist.go: the next free number among IDs made of a prefix and three digits. */
module NamelistIds {
  import opened Calendar
  import opened Text

  /** What the GLOB pattern finds: the prefix, then exactly three digits. */
  predicate Matches(id: string, prefix: string) {
    |id| == |prefix| + 3 && prefix <= id && AllDigits(id[|prefix|..])
  }

  function Number(id: string, prefix: string): nat
    requires Matches(id, prefix)
  {
    DigitsValue(id[|prefix|..])
  }

  function ThreeDigits(n: nat): string
    requires n <= 999
  {
    [Digit(n / 100), Digit(n / 10 % 10), Digit(n % 10)]
  }

  /** `%03d`. */
  function Padded(n: nat): string {
    if n <= 999 then ThreeDigits(n) else Itoa(n)
  }

  /** `SELECT MAX(id)`: the greatest as text. */
  function MaxId(ids: seq<string>, prefix: string): Option<string> {
    if ids == [] then None
    else
      var best, id := MaxId(ids[..|ids| - 1], prefix), ids[|ids| - 1];
      if !Matches(id, prefix) then best
      else if best.Some? && !Less(best.value, id) then best
      else Some(id)
  }

  lemma ThreeValue(s: string)
    requires |s| == 3 && AllDigits(s)
    ensures IsDigit(s[0]) && IsDigit(s[1]) && IsDigit(s[2])
    ensures DigitsValue(s) == 100 * (s[0] - '0') as int + 10 * (s[1] - '0') as int + (s[2] - '0') as int
    ensures DigitsValue(s) <= 999
  {
    assert s[0] in s && s[1] in s && s[2] in s;
    assert s[..2][..1] == [s[0]] && [s[0]][..0] == [];
    assert DigitsValue([s[0]]) == (s[0] - '0') as int;
    assert DigitsValue(s[..2]) == 10 * (s[0] - '0') as int + (s[1] - '0') as int;
  }

  lemma ThreeOrder(s: string, t: string)
    requires |s| == 3 && AllDigits(s) && |t| == 3 && AllDigits(t)
    ensures Less(s, t) <==> DigitsValue(s) < DigitsValue(t)
    ensures s == t <==> DigitsValue(s) == DigitsValue(t)
  {
    ThreeValue(s);
    ThreeValue(t);
    hide DigitsValue, AllDigits;
    assert s == [s[0]] + ([s[1]] + ([s[2]] + [])) && t == [t[0]] + ([t[1]] + ([t[2]] + []));
    LessFirst(s[0], [s[1]] + ([s[2]] + []), t[0], [t[1]] + ([t[2]] + []));
    LessFirst(s[1], [s[2]] + [], t[1], [t[2]] + []);
    LessFirst(s[2], [], t[2], []);
    assert !Less([], []);
    hide Less;
  }

  /** Among IDs of one prefix the order of the text is the order of the numbers. */
  lemma NumberOrder(a: string, b: string, prefix: string)
    requires Matches(a, prefix) && Matches(b, prefix)
    ensures Less(a, b) <==> Number(a, prefix) < Number(b, prefix)
    ensures a == b <==> Number(a, prefix) == Number(b, prefix)
    ensures Number(a, prefix) <= 999
  {
    var n := |prefix|;
    assert a == prefix + a[n..] && b == prefix + b[n..];
    ThreeValue(a[n..]);
    ThreeOrder(a[n..], b[n..]);
    hide Less, DigitsValue, AllDigits;
    CommonPrefix(prefix, a[n..], b[n..]);
  }

  lemma {:induction false} MaxIdIsGreatest(ids: seq<string>, prefix: string)
    ensures MaxId(ids, prefix).None? <==> forall id <- ids :: !Matches(id, prefix)
    ensures var m := MaxId(ids, prefix);
            m.Some? ==>
              && m.value in ids && Matches(m.value, prefix)
              && (forall id <- ids :: Matches(id, prefix) ==> Number(id, prefix) <= Number(m.value, prefix))
  {
    hide Matches, Less, Number;
    if ids != [] {
      var n := |ids| - 1;
      MaxIdIsGreatest(ids[..n], prefix);
      assert forall id <- ids :: id in ids[..n] || id == ids[n];
      assert ids[n] in ids && forall id <- ids[..n] :: id in ids;
      var best := MaxId(ids[..n], prefix);
      if best.Some? && Matches(ids[n], prefix) {
        NumberOrder(best.value, ids[n], prefix);
      }
    }
  }

  /** The highest number in use. */
  function Top(ids: seq<string>, prefix: string): nat {
    var m := MaxId(ids, prefix);
    if m.None? then 0
    else
      MaxIdIsGreatest(ids, prefix);
      Number(m.value, prefix)
  }

  function NextId(ids: seq<string>, prefix: string): string {
    prefix + Padded(Top(ids, prefix) + 1)
  }

  lemma ThreeDigitsNumber(prefix: string, n: nat)
    requires n <= 999
    ensures Matches(prefix + ThreeDigits(n), prefix) && Number(prefix + ThreeDigits(n), prefix) == n
  {
    var s := ThreeDigits(n);
    assert (prefix + s)[|prefix|..] == s;
    DigitIs(n / 100);
    DigitIs(n / 10 % 10);
    DigitIs(n % 10);
    hide Digit;
    ThreeValue(s);
    hide DigitsValue;
    assert n / 10 == 10 * (n / 100) + n / 10 % 10;
  }

  lemma DigitIs(n: int)
    requires 0 <= n <= 9
    ensures IsDigit(Digit(n)) && (Digit(n) - '0') as int == n
  {
  }

  /** Below 999 the next ID is new, and one higher than any of its kind. */
  lemma NextIsFresh(ids: seq<string>, prefix: string)
    requires Top(ids, prefix) < 999
    ensures var id := NextId(ids, prefix);
            && id !in ids && Matches(id, prefix) && Number(id, prefix) == Top(ids, prefix) + 1
            && (forall old_ <- ids :: Matches(old_, prefix) ==> Less(old_, id))
            && Top(ids + [id], prefix) == Top(ids, prefix) + 1
  {
    var id := NextId(ids, prefix);
    ThreeDigitsNumber(prefix, Top(ids, prefix) + 1);
    MaxIdIsGreatest(ids, prefix);
    hide Matches, Number, Less, ThreeDigits;
    forall old_ | old_ in ids && Matches(old_, prefix) ensures Less(old_, id) && old_ != id {
      NumberOrder(old_, id, prefix);
    }
    assert (ids + [id])[..|ids|] == ids;
    var m := MaxId(ids, prefix);
    if m.Some? {
      assert Less(m.value, id);
      LessTotal(m.value, id);
    }
  }

  lemma NextIsOneMore(ids: seq<string>, prefix: string)
    requires Top(ids, prefix) < 999
    ensures NextId(ids, prefix) !in ids && Top(ids + [NextId(ids, prefix)], prefix) == Top(ids, prefix) + 1
    ensures NextId(ids, prefix) == prefix + Padded(Top(ids, prefix) + 1)
  {
    NextIsFresh(ids, prefix);
    hide Top, Matches, Number, Padded;
  }

  lemma TopBound(ids: seq<string>, prefix: string)
    ensures Top(ids, prefix) <= 999
  {
    var m := MaxId(ids, prefix);
    MaxIdIsGreatest(ids, prefix);
    if m.Some? {
      NumberOrder(m.value, m.value, prefix);
    }
  }

  /** The next ID is taken exactly when 999 is, and the four-digit ID after it as well: two imports past
      999 collide. */
  lemma CollidesExactly(ids: seq<string>, prefix: string)
    ensures NextId(ids, prefix) in ids <==> Top(ids, prefix) == 999 && prefix + "1000" in ids
  {
    TopBound(ids, prefix);
    if Top(ids, prefix) < 999 {
      NextIsFresh(ids, prefix);
    } else {
      ThousandIs();
    }
  }

  lemma ThousandIs()
    ensures Itoa(1000) == "1000"
  {
    assert Itoa(1) == "1" && Itoa(10) == "10" && Itoa(100) == "100";
  }

  /** Past 999 the maximum stays where it is, so the same ID comes out again. */
  lemma PastTheEnd(ids: seq<string>, prefix: string)
    requires Top(ids, prefix) == 999
    ensures NextId(ids + [NextId(ids, prefix)], prefix) == NextId(ids, prefix) == prefix + "1000"
  {
    ThousandIs();
    var id := prefix + "1000";
    assert !Matches(id, prefix);
    assert (ids + [id])[..|ids|] == ids;
    hide Matches, Number, Less;
  }
}
