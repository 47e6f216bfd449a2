/** Exactly which searched texts the LIKE patterns of memos/lib/filter/render.go find as meant: the laws of
    `Like`, turned into conditions on the text alone. */
module LikeExact {
  import opened Text
  import opened Patterns = Like

  /** A text the pattern around `q` finds, made by giving each wildcard one character and each escaped character
      its place. A backslash at the end of `q` escapes the percent sign written after it. */
  function Sample(q: string, escape: bool): string {
    if q == "" then ""
    else if q[0] == '%' || q[0] == '_' then "x" + Sample(q[1..], escape)
    else if escape && q[0] == '\\' then if |q| == 1 then "%" else [q[1]] + Sample(q[2..], escape)
    else [q[0]] + Sample(q[1..], escape)
  }

  /** Without backslashes anything may follow. */
  lemma {:induction false} SampleMatches(q: string, rest: string, escape: bool)
    requires rest == "" || '\\' !in q
    ensures Like(q + "%", Sample(q, escape) + rest, escape)
  {
    var p, t := q + "%", Sample(q, escape) + rest;
    if q == "" {
      assert p == "%" && t == rest;
      LikeAnything(rest, escape);
    } else if escape && q[0] == '\\' {
      if |q| == 1 {
        assert p[2..] == "" && t == "%" && t[1..] == "";
      } else {
        SampleMatches(q[2..], rest, escape);
        assert p[2..] == q[2..] + "%" && t[1..] == Sample(q[2..], escape) + rest;
      }
    } else {
      SampleMatches(q[1..], rest, escape);
      assert p[1..] == q[1..] + "%" && t[1..] == Sample(q[1..], escape) + rest;
      assert q[0] == '%' ==> Like(p, t[1..], escape);
    }
  }

  lemma {:induction false} SampleShorter(q: string, escape: bool)
    ensures |Sample(q, escape)| <= |q|
    ensures Wild(q, escape) ==> Sample(q, escape) != q
  {
    if q != "" {
      if escape && q[0] == '\\' && |q| > 1 {
        SampleShorter(q[2..], escape);
      } else {
        SampleShorter(q[1..], escape);
        assert q == [q[0]] + q[1..];
      }
    }
  }

  lemma {:induction false} SampleLength(q: string, escape: bool)
    requires '\\' !in q
    ensures |Sample(q, escape)| == |q|
  {
    if q != "" {
      SampleLength(q[1..], escape);
    }
  }

  lemma {:induction false} OccursShorter(q: string, t: string)
    requires |t| <= |q|
    ensures Occurs(q, t) <==> q == t
  {
    if t != "" {
      OccursShorter(q, t[1..]);
    }
  }

  /** A wild text does not occur in its sample. */
  lemma SampleDiffers(q: string, escape: bool)
    requires Wild(q, escape)
    ensures !Occurs(q, Sample(q, escape))
  {
    SampleShorter(q, escape);
    OccursShorter(q, Sample(q, escape));
  }

  /** `%q%` finds exactly the texts q occurs in, for all texts, exactly when q is not wild. */
  lemma InfixExactly(q: string, escape: bool)
    ensures (forall t :: Like("%" + q + "%", t, escape) <==> Occurs(q, t)) <==> !Wild(q, escape)
  {
    if Wild(q, escape) {
      SampleFound(q, escape);
    }
    hide Like, Occurs, Wild;
    if !Wild(q, escape) {
      forall t ensures Like("%" + q + "%", t, escape) <==> Occurs(q, t) {
        LikeInfix(q, t, escape);
      }
    }
  }

  lemma SampleFound(q: string, escape: bool)
    requires Wild(q, escape)
    ensures Like("%" + q + "%", Sample(q, escape), escape) && !Occurs(q, Sample(q, escape))
  {
    SampleMatches(q, "", escape);
    assert Sample(q, escape) + "" == Sample(q, escape);
    assert ("%" + q + "%")[1..] == q + "%";
    SampleDiffers(q, escape);
  }

  // ---------- case folding ----------

  lemma {:induction false} LowerWild(s: string, escape: bool)
    ensures Wild(ToLower(s), escape) <==> Wild(s, escape)
  {
    assert forall i :: 0 <= i < |s| ==> ToLower(s)[i] == LowerChar(s[i]);
    LowerKeeps(s, '%');
    LowerKeeps(s, '_');
    LowerKeeps(s, '\\');
  }

  lemma {:induction false} SampleLower(q: string, escape: bool)
    requires NoCapitals(q)
    ensures NoCapitals(Sample(q, escape))
  {
    if q != "" {
      assert q[0] in q;
      if escape && q[0] == '\\' && |q| > 1 {
        assert q[1] in q && forall c <- q[2..] :: c in q;
        SampleLower(q[2..], escape);
      } else {
        assert forall c <- q[1..] :: c in q;
        SampleLower(q[1..], escape);
      }
    }
  }

  // ---------- tag patterns ----------

  lemma {:induction false} SampleConcat(a: string, b: string, escape: bool)
    requires '\\' !in a
    ensures Sample(a + b, escape) == Sample(a, escape) + Sample(b, escape)
  {
    if a == "" {
      assert a + b == b;
    } else {
      assert (a + b)[1..] == a[1..] + b;
      SampleConcat(a[1..], b, escape);
    }
  }

  lemma {:induction false} SkipBefore(p: string, before: string, t: string, escape: bool)
    requires p != "" && p[0] == '%' && Like(p, t, escape)
    ensures Like(p, before + t, escape)
  {
    if before == "" {
      assert before + t == t;
    } else {
      SkipBefore(p, before[1..], t, escape);
      assert (before + t)[1..] == before[1..] + t;
    }
  }

  lemma {:induction false} SamplePlain(v: string, escape: bool)
    requires Plain(v)
    ensures Plain(Sample(v, escape))
  {
    if v != "" {
      assert v[0] in v && forall c <- v[1..] :: c in v;
      SamplePlain(v[1..], escape);
    }
  }

  predicate QuoteOrNothing(s: string) {
    s == "" || s == [Q]
  }

  /** The list of one tag, cut around the tag with or without its quotes. */
  lemma ListOfOne(pre: string, t: string, post: string, sep: string) returns (before: string, after: string)
    requires QuoteOrNothing(pre) && QuoteOrNothing(post)
    ensures ListText([t], sep) == before + (pre + t + post + after)
  {
    before, after := if pre == "" then "[" + [Q] else "[", if post == "" then [Q] + "]" else "]";
    RegroupTag("[", [Q], t, "]");
    assert Elements([t], sep) == [Q] + t + [Q] by { assert [Q] + t + [Q] + "" == [Q] + t + [Q]; }
    hide Elements;
    assert ListText([t], sep) == "[" + ([Q] + t + [Q]) + "]";
    hide ListText;
  }

  lemma RegroupTag(l: string, q: string, t: string, r: string)
    ensures l + (q + t + q) + r == l + (q + t + q + r)
    ensures l + (q + t + q) + r == l + (q + t + "" + (q + r))
    ensures l + (q + t + q) + r == l + q + ("" + t + q + r)
    ensures l + (q + t + q) + r == l + q + ("" + t + "" + (q + r))
  {
    assert q + t + "" == q + t && "" + t == t && t + "" == t;
    assert q + t + q + r == q + t + (q + r) == q + (t + q + r) == q + (t + (q + r));
  }

  lemma SampleBetween(pre: string, v: string, post: string, escape: bool)
    requires QuoteOrNothing(pre) && QuoteOrNothing(post) && '\\' !in v
    ensures Sample(pre + v + post, escape) == pre + Sample(v, escape) + post
  {
    SampleConcat(pre + v, post, escape);
    SampleConcat(pre, v, escape);
  }

  /** The pattern around v, with or without the tag's quotes, finds the list of v's sample alone. */
  lemma WildFound(pre: string, v: string, post: string, sep: string, escape: bool)
    requires QuoteOrNothing(pre) && QuoteOrNothing(post) && '\\' !in v
    ensures Like("%" + (pre + v + post) + "%", ListText([Sample(v, escape)], sep), escape)
  {
    hide ListText, Sample;
    var s, q := Sample(v, escape), pre + v + post;
    var p := "%" + q + "%";
    SampleBetween(pre, v, post, escape);
    var before, after := ListOfOne(pre, s, post, sep);
    SampleMatches(q, after, escape);
    assert p[1..] == q + "%";
    assert Like(p, pre + s + post + after, escape);
    hide Like;
    SkipBefore(p, before, pre + s + post + after, escape);
  }

  /** The pattern finds the tag v in a list exactly when it is there. */
  ghost predicate FindsTag(v: string, sep: string, escape: bool) {
    forall tags :: PlainTags(tags) ==>
      (Like("%" + ([Q] + v + [Q]) + "%", ListText(tags, sep), escape) <==> v in tags)
  }

  ghost predicate FindsPrefix(p: string, sep: string, escape: bool) {
    forall tags :: PlainTags(tags) ==>
      (Like("%" + ([Q] + p) + "%", ListText(tags, sep), escape) <==> exists t <- tags :: p <= t)
  }

  ghost predicate FindsSuffix(s: string, sep: string, escape: bool) {
    forall tags :: PlainTags(tags) ==>
      (Like("%" + (s + [Q]) + "%", ListText(tags, sep), escape) <==> exists t <- tags :: EndsWith(t, s))
  }

  /** An infix is looked for in non-empty lists only. */
  ghost predicate FindsInfix(s: string, sep: string, escape: bool) {
    forall tags :: PlainTags(tags) && tags != [] ==>
      (Like("%" + s + "%", ListText(tags, sep), escape) <==> exists t <- tags :: Occurs(s, t))
  }

  lemma TagExactly(v: string, sep: string, escape: bool)
    requires Plain(v) && Separator(sep)
    ensures FindsTag(v, sep, escape) <==> !Wild(v, escape) && v != sep
  {
    if Wild(v, escape) {
      WildTag([Q], v, [Q], sep, escape);
    }
    hide Like, ListText, Wild, Plain;
    if !Wild(v, escape) {
      forall tags | PlainTags(tags)
        ensures Like("%" + ([Q] + v + [Q]) + "%", ListText(tags, sep), escape) <==>
                v in tags || (v == sep && |tags| >= 2)
      {
        LikeTag(v, tags, sep, escape);
      }
      if v == sep {
        TwoPlain();
        assert v !in ["a", "b"];
      }
    }
  }

  /** The sample alone is a list a wild literal's pattern finds, though the literal is no part of any tag of it. */
  lemma WildTag(pre: string, v: string, post: string, sep: string, escape: bool)
    requires QuoteOrNothing(pre) && QuoteOrNothing(post) && Plain(v) && Wild(v, escape)
    ensures PlainTags([Sample(v, escape)])
    ensures Like("%" + (pre + v + post) + "%", ListText([Sample(v, escape)], sep), escape)
    ensures forall t <- [Sample(v, escape)] :: t != v && !(v <= t) && !EndsWith(t, v) && !Occurs(v, t)
  {
    SamplePlain(v, escape);
    SampleShorter(v, escape);
    SampleDiffers(v, escape);
    WildFound(pre, v, post, sep, escape);
  }

  lemma TwoPlain()
    ensures PlainTags(["a", "b"]) && PlainTags(["a"]) && PlainTags([])
  {
  }

  lemma PrefixExactly(p: string, sep: string, escape: bool)
    requires Plain(p) && Separator(sep)
    ensures FindsPrefix(p, sep, escape) <==> !Wild(p, escape) && (p == "" || !(p <= "]" || p <= sep))
  {
    PlainHasNoQuote(p);
    hide Like, ListText, Wild, Plain, Sample, EndsWith, Occurs;
    if Wild(p, escape) {
      WildTag([Q], p, "", sep, escape);
      assert [Q] + p + "" == [Q] + p;
    } else {
      forall tags | PlainTags(tags)
        ensures Like("%" + ([Q] + p) + "%", ListText(tags, sep), escape) <==>
                (exists t <- tags :: p <= t) || (p <= "]" && |tags| >= 1) || (p <= sep && |tags| >= 2)
        ensures |tags| >= 1 ==> tags[0] in tags
      {
        LikeTagPrefix(p, tags, sep, escape);
      }
      if p != "" && (p <= "]" || p <= sep) {
        TwoPlain();
        PrefixHead(p, "]");
        PrefixHead(p, sep);
        assert forall t <- ["a", "b"] :: !(p <= t);
      }
    }
  }

  lemma PlainHasNoQuote(v: string)
    ensures Plain(v) ==> Q !in v
  {
  }

  lemma PrefixHead(p: string, t: string)
    requires p != ""
    ensures p <= t ==> t != "" && p[0] == t[0]
  {
  }

  lemma SuffixExactly(s: string, sep: string, escape: bool)
    requires Plain(s) && Separator(sep)
    ensures FindsSuffix(s, sep, escape) <==> !Wild(s, escape) && (s == "" || !(EndsWith("[", s) || EndsWith(sep, s)))
  {
    PlainHasNoQuote(s);
    hide Like, ListText, Wild, Plain, EndsWith;
    if Wild(s, escape) {
      WildTag("", s, [Q], sep, escape);
      assert "" + s + [Q] == s + [Q];
    } else {
      forall tags | PlainTags(tags)
        ensures Like("%" + (s + [Q]) + "%", ListText(tags, sep), escape) <==>
                || (exists t <- tags :: EndsWith(t, s))
                || (EndsWith("[", s) && |tags| >= 1)
                || (EndsWith(sep, s) && |tags| >= 2)
        ensures |tags| >= 1 ==> tags[0] in tags
      {
        LikeTagSuffix(s, tags, sep, escape);
      }
      if s == "" {
        forall t ensures EndsWith(t, "") {
          NothingEnds(t);
        }
      } else if EndsWith("[", s) || EndsWith(sep, s) {
        TwoPlain();
        LastOf("[", s);
        LastOf(sep, s);
        LastOf("a", s);
        LastOf("b", s);
        assert forall t <- ["a", "b"] :: !EndsWith(t, s);
      }
    }
  }

  lemma NothingEnds(t: string)
    ensures EndsWith(t, "")
  {
  }

  lemma LastOf(t: string, s: string)
    requires s != ""
    ensures EndsWith(t, s) ==> t != "" && s[|s| - 1] == t[|t| - 1]
  {
  }

  lemma InfixTagExactly(s: string, sep: string, escape: bool)
    requires Plain(s) && Separator(sep)
    ensures FindsInfix(s, sep, escape) <==>
            !Wild(s, escape) && (s == "" || !(Occurs(s, "[") || Occurs(s, "]") || Occurs(s, sep)))
  {
    PlainHasNoQuote(s);
    hide Like, ListText, Wild, Plain, Occurs;
    if Wild(s, escape) {
      WildTag("", s, "", sep, escape);
      assert "" + s + "" == s;
    } else if s == "" {
      forall tags | PlainTags(tags) && tags != []
        ensures Like("%" + s + "%", ListText(tags, sep), escape) <==> exists t <- tags :: Occurs(s, t)
      {
        NothingOccurs(tags[0]);
        LikeTagInfix(s, tags, sep, escape);
        assert tags[0] in tags;
      }
    } else if Occurs(s, "[") || Occurs(s, "]") || Occurs(s, sep) {
      TwoPlain();
      NotInLetters(s, sep);
      LikeTagInfix(s, ["a", "b"], sep, escape);
      assert forall t <- ["a", "b"] :: !Occurs(s, t);
    } else {
      forall tags | PlainTags(tags) && tags != []
        ensures Like("%" + s + "%", ListText(tags, sep), escape) <==> exists t <- tags :: Occurs(s, t)
      {
        LikeTagInfix(s, tags, sep, escape);
      }
    }
  }

  lemma NothingOccurs(t: string)
    ensures Occurs("", t)
  {
  }

  /** Punctuation holds no letter. */
  lemma NotInLetters(s: string, sep: string)
    requires s != "" && Separator(sep) && (Occurs(s, "[") || Occurs(s, "]") || Occurs(s, sep))
    ensures !Occurs(s, "a") && !Occurs(s, "b")
  {
    if Occurs(s, "[") { OccursHead(s, "["); }
    if Occurs(s, "]") { OccursHead(s, "]"); }
    if Occurs(s, sep) { OccursHead(s, sep); }
    if Occurs(s, "a") { OccursHead(s, "a"); }
    if Occurs(s, "b") { OccursHead(s, "b"); }
  }

  lemma {:induction false} OccursHead(s: string, t: string)
    requires s != "" && Occurs(s, t)
    ensures s[0] in t
  {
    if !(s <= t) {
      OccursHead(s, t[1..]);
    }
  }

  lemma {:induction false} SampleTame(q: string, escape: bool)
    requires !Wild(q, escape)
    ensures Sample(q, escape) == q
  {
    if q != "" {
      assert q[0] in q && forall c <- q[1..] :: c in q;
      SampleTame(q[1..], escape);
      assert [q[0]] + q[1..] == q;
    }
  }

  lemma MyTagSample()
    ensures Sample("my_tag", false) == "myxtag"
  {
    assert "my_tag" == "my" + ("_" + "tag");
    SampleConcat("my", "_" + "tag", false);
    SampleConcat("_", "tag", false);
    SampleTame("my", false);
    SampleTame("tag", false);
    assert Sample("_", false) == "x" by { assert "x" + "" == "x"; }
    hide *;
    assert "my" + ("x" + "tag") == "myxtag";
  }

  /** The tag `my_tag`, which SQLite also finds in a list holding only `myxtag`. */
  lemma UnderscoreExample()
    ensures !FindsTag("my_tag", ",", false)
    ensures Like("%" + ([Q] + "my_tag" + [Q]) + "%", ListText(["myxtag"], ","), false)
  {
    assert "my_tag"[2] == '_';
    hide Like, ListText, FindsTag, Sample;
    TagExactly("my_tag", ",", false);
    WildFound([Q], "my_tag", [Q], ",", false);
    MyTagSample();
  }
}
