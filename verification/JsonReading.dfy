/**
  A JSON text has one reading: the grammar is unambiguous, so the value a parser
  is asked for is determined by the text.

  Strings end at their first unescaped quote and numbers where their characters
  end; lists and objects are compared member by member, each followed by a text
  that does not go on with it.
 */
module JsonReading {
  import opened Wrappers
  import opened Json
  import opened Text
  import opened JsonText
  import Release

  // ---------------------------------------------------------------- whitespace

  predicate SpaceChar(c: char) { c == ' ' || c == '\t' || c == '\n' || c == '\r' }

  function LeadingSpaces(s: string): nat { if s != [] && SpaceChar(s[0]) then 1 + LeadingSpaces(s[1..]) else 0 }

  /** A text that goes on, not with whitespace. */
  predicate GoesOn(s: string) { s != [] && !SpaceChar(s[0]) }

  lemma {:induction false} SpacesAreCounted(space: string, s: string)
    requires IsSpace(space) && GoesOn(s)
    ensures LeadingSpaces(space + s) == |space|
    decreases |space|
  {
    if space == [] {
      assert space + s == s;
    } else {
      assert space[0] in space && forall c :: c in space[1..] ==> c in space;
      assert (space + s)[1..] == space[1..] + s;
      SpacesAreCounted(space[1..], s);
    }
  }

  lemma SpacesAgree(a: string, b: string, s: string, t: string)
    requires IsSpace(a) && IsSpace(b) && GoesOn(s) && GoesOn(t)
    requires a + s == b + t
    ensures a == b && s == t
  {
    SpacesAreCounted(a, s);
    SpacesAreCounted(b, t);
    assert a == (a + s)[..|a|] && b == (b + t)[..|b|];
    assert s == (a + s)[|a|..] && t == (b + t)[|b|..];
  }

  // ---------------------------------------------------------------- strings

  /** Where the first quote is that no backslash escapes. */
  function Closing(s: string): nat {
    if s == [] || s[0] == '\"' then 0
    else if s[0] != '\\' then 1 + Closing(s[1..])
    else if |s| == 1 then 1
    else 2 + Closing(s[2..])
  }

  lemma PlainIsPassed(s: string)
    requires s != [] && s[0] != '\"' && s[0] != '\\'
    ensures Closing(s) == 1 + Closing(s[1..])
  {
  }

  lemma HexIsPassed(s: string)
    requires FourHex(s).Some?
    ensures Closing(s) == 4 + Closing(s[4..])
  {
    PlainIsPassed(s);
    PlainIsPassed(s[1..]);
    PlainIsPassed(s[2..]);
    PlainIsPassed(s[3..]);
    assert s[1..][1..] == s[2..] && s[2..][1..] == s[3..] && s[3..][1..] == s[4..];
  }

  lemma UnicodeIsPassed(body: string, s: string)
    requires UnicodeEscape(body).Some? && body[0] == '\\' && body[1] == 'u' && body <= s
    ensures Closing(s) == UnicodeEscape(body).value.1 + Closing(s[UnicodeEscape(body).value.1..])
  {
    HexIsPassed(s[2..]);
    assert s[2..][4..] == s[6..];
    if UnicodeEscape(body).value.1 == 12 {
      HexIsPassed(s[8..]);
      assert s[6..][2..] == s[8..] && s[8..][4..] == s[12..];
    }
  }

  lemma {:induction false} ClosesAfterItsBody(body: string, rest: string)
    requires Unescaped(body).Some?
    ensures Closing(body + ("\"" + rest)) == |body|
    decreases |body|
  {
    var s := body + ("\"" + rest);
    if body == [] {
      assert s[0] == '\"';
    } else {
      var step := if body[0] != '\\' then 1 else if body[1] == 'u' then UnicodeEscape(body).value.1 else 2;
      assert s[step..] == body[step..] + ("\"" + rest);
      ClosesAfterItsBody(body[step..], rest);
      if body[0] == '\\' && body[1] == 'u' {
        UnicodeIsPassed(body, s);
      }
    }
  }

  lemma StringsAgree(a: string, b: string, r: string, s: string)
    requires Unescaped(a).Some? && Unescaped(b).Some?
    requires QuotedText(a) + r == QuotedText(b) + s
    ensures a == b && r == s
  {
    var x, y := a + ("\"" + r), b + ("\"" + s);
    assert QuotedText(a) + r == "\"" + x && QuotedText(b) + s == "\"" + y;
    assert x == ("\"" + x)[1..] && y == ("\"" + y)[1..];
    ClosesAfterItsBody(a, r);
    ClosesAfterItsBody(b, s);
    assert a == x[..|a|] && b == y[..|b|];
    assert "\"" + r == x[|a|..] && "\"" + s == y[|b|..];
    assert r == ("\"" + r)[1..] && s == ("\"" + s)[1..];
  }

  // ---------------------------------------------------------------- numbers

  /** What may follow a number: nothing that would go on with it. */
  predicate EndsNumber(s: string) {
    s == [] || !(IsDigit(s[0]) || s[0] == '.' || s[0] == 'e' || s[0] == 'E' || s[0] == '+' || s[0] == '-')
  }

  function ExponentText(e: Option<(string, string)>): string { if e.Some? then e.value.0 + e.value.1 else "" }

  function FractionText(f: Option<string>): string { if f.Some? then "." + f.value else "" }

  predicate ValidExponent(e: Option<(string, string)>) {
    e.Some? ==> e.value.0 in {"e", "E", "e+", "E+", "e-", "E-"} && e.value.1 != [] && AllDigits(e.value.1)
  }

  predicate ValidFraction(f: Option<string>) { f.Some? ==> f.value != [] && AllDigits(f.value) }

  lemma DigitsStart(digits: string, r: string)
    requires digits != [] && AllDigits(digits)
    ensures IsDigit((digits + r)[0])
  {
    assert digits[0] in digits;
  }

  /** The first character says whether there is an exponent, the second whether it has a sign. */
  lemma ExponentStarts(e: Option<(string, string)>, r: string)
    requires ValidExponent(e) && EndsNumber(r)
    ensures var t := ExponentText(e) + r;
            if e.None? then t == r
            else
              && |t| >= 2 && (t[0] == 'e' || t[0] == 'E') && e.value.0[0] == t[0]
              && |e.value.0| == (if t[1] == '+' || t[1] == '-' then 2 else 1)
              && (|e.value.0| == 2 ==> e.value.0[1] == t[1])
              && t[|e.value.0|..] == e.value.1 + r
  {
    if e.Some? {
      DigitsStart(e.value.1, r);
      var t := ExponentText(e) + r;
      assert t == e.value.0 + (e.value.1 + r);
      assert forall i :: 0 <= i < |e.value.0| ==> t[i] == e.value.0[i];
      if |e.value.0| == 1 {
        assert t[1] == (e.value.1 + r)[0];
      }
    } else {
      assert "" + r == r;
    }
  }

  lemma ExponentsAgree(e: Option<(string, string)>, f: Option<(string, string)>, r: string, s: string)
    requires ValidExponent(e) && ValidExponent(f) && EndsNumber(r) && EndsNumber(s)
    requires ExponentText(e) + r == ExponentText(f) + s
    ensures e == f && r == s
  {
    ExponentStarts(e, r);
    ExponentStarts(f, s);
    if e.Some? && f.Some? {
      assert e.value.0 == f.value.0;
      Release.DigitRunsAreDelimited(e.value.1, f.value.1, r, s);
    }
  }

  lemma FractionStarts(f: Option<string>, t: string)
    requires ValidFraction(f) && (t == [] || (t[0] != '.' && !IsDigit(t[0])))
    ensures var u := FractionText(f) + t;
            if f.None? then u == t else u != [] && u[0] == '.' && u[1..] == f.value + t
  {
    if f.None? {
      assert "" + t == t;
    } else {
      assert ("." + f.value + t)[1..] == f.value + t;
    }
  }

  /** What follows the fraction starts with neither a digit nor a point. */
  predicate AfterDigits(s: string) { s == [] || (s[0] != '.' && !IsDigit(s[0])) }

  lemma ExponentIsAfterDigits(e: Option<(string, string)>, r: string)
    requires ValidExponent(e) && EndsNumber(r)
    ensures AfterDigits(ExponentText(e) + r)
  {
    ExponentStarts(e, r);
  }

  lemma FractionsAgree(f: Option<string>, g: Option<string>, r: string, s: string)
    requires ValidFraction(f) && ValidFraction(g) && AfterDigits(r) && AfterDigits(s)
    requires FractionText(f) + r == FractionText(g) + s
    ensures f == g && r == s
  {
    FractionStarts(f, r);
    FractionStarts(g, s);
    if f.Some? && g.Some? {
      Release.DigitRunsAreDelimited(f.value, g.value, r, s);
    }
  }

  /** A number text from its sign on. */
  lemma NumberParts(d: Doc, r: string)
    requires d.Num? && ValidNumber(d)
    ensures NumberText(d) + r == (if d.negative then "-" else "") + (d.whole + (FractionText(d.fraction) + (ExponentText(d.exponent) + r)))
    ensures IsDigit(d.whole[0])
  {
    DigitsStart(d.whole, r);
    assert d.whole[0] == (d.whole + r)[0];
    var sign, fraction, exponent := if d.negative then "-" else "", FractionText(d.fraction), ExponentText(d.exponent);
    assert NumberText(d) == sign + d.whole + fraction + exponent;
    Regroup(sign, d.whole, fraction, exponent, r);
  }

  lemma Regroup(a: string, b: string, c: string, d: string, e: string)
    ensures a + b + c + d + e == a + (b + (c + (d + e)))
  {
  }

  lemma FractionIsNoDigit(f: Option<string>, t: string)
    requires ValidFraction(f) && AfterDigits(t)
    ensures !Release.StartsWithDigit(FractionText(f) + t)
  {
    FractionStarts(f, t);
  }

  lemma SignsAgree(m: bool, n: bool, s: string, t: string)
    requires s != [] && t != [] && IsDigit(s[0]) && IsDigit(t[0])
    requires (if m then "-" else "") + s == (if n then "-" else "") + t
    ensures m == n && s == t
  {
    assert "" + s == s && "" + t == t;
    assert ("-" + s)[1..] == s && ("-" + t)[1..] == t;
  }

  lemma NumbersAgree(d: Doc, e: Doc, r: string, s: string)
    requires d.Num? && e.Num? && ValidNumber(d) && ValidNumber(e) && EndsNumber(r) && EndsNumber(s)
    requires NumberText(d) + r == NumberText(e) + s
    ensures d == e && r == s
  {
    NumberParts(d, r);
    NumberParts(e, s);
    var x, y := ExponentText(d.exponent) + r, ExponentText(e.exponent) + s;
    var u, v := FractionText(d.fraction) + x, FractionText(e.fraction) + y;
    ExponentIsAfterDigits(d.exponent, r);
    ExponentIsAfterDigits(e.exponent, s);
    FractionIsNoDigit(d.fraction, x);
    FractionIsNoDigit(e.fraction, y);
    SignsAgree(d.negative, e.negative, d.whole + u, e.whole + v);
    Release.DigitRunsAreDelimited(d.whole, e.whole, u, v);
    FractionsAgree(d.fraction, e.fraction, x, y);
    ExponentsAgree(d.exponent, e.exponent, r, s);
  }

  // ---------------------------------------------------------------- documents

  /** The text of a document without the whitespace before it. */
  function Body(d: Doc, spaces: seq<string>, rest: string): string
    requires |spaces| == |Tokens(d)|
  {
    Tokens(d)[0] + Laid(Tokens(d)[1..], spaces[1..], rest)
  }

  /** The character a document starts with tells its kind. */
  function Kind(c: char): nat {
    if c == 'n' then 0
    else if c == 't' || c == 'f' then 1
    else if c == '-' || IsDigit(c) then 2
    else if c == '\"' then 3
    else if c == '[' then 4
    else if c == '{' then 5
    else 6
  }

  function KindOf(d: Doc): nat {
    match d
    case Nil => 0
    case Flag(_) => 1
    case Num(_, _, _, _) => 2
    case Quoted(_) => 3
    case List(_) => 4
    case Dict(_) => 5
  }

  lemma DocStarts(d: Doc, spaces: seq<string>, rest: string)
    requires Valid(d) && |spaces| == |Tokens(d)|
    ensures Laid(Tokens(d), spaces, rest) == spaces[0] + Body(d, spaces, rest)
    ensures GoesOn(Body(d, spaces, rest)) && Kind(Body(d, spaces, rest)[0]) == KindOf(d)
  {
    if d.Num? {
      NumberParts(d, "");
      assert NumberText(d) + "" == NumberText(d);
    }
    assert Tokens(d)[0] != [] && Kind(Tokens(d)[0][0]) == KindOf(d) && !SpaceChar(Tokens(d)[0][0]);
  }

  /** Equal texts, each followed by something that does not go on with a number, are laid out from equal documents alike. */
  lemma {:induction false} TextsAgree(d: Doc, e: Doc, a: seq<string>, b: seq<string>, r: string, s: string)
    requires Valid(d) && Valid(e) && Spacing(a, Tokens(d)) && Spacing(b, Tokens(e)) && EndsNumber(r) && EndsNumber(s)
    requires Laid(Tokens(d), a, r) == Laid(Tokens(e), b, s)
    ensures d == e && a == b && r == s
    decreases d, 1, 0
  {
    DocStarts(d, a, r);
    DocStarts(e, b, s);
    SpacesAgree(a[0], b[0], Body(d, a, r), Body(e, b, s));
    match d {
      case List(_) =>
        BracketBody(d, a, r);
        BracketBody(e, b, s);
        ItemsAgree(d, e, 0, a[1..], b[1..], r, s);
        assert d.items == d.items[0..] && e.items == e.items[0..];
        assert a == [a[0]] + a[1..] && b == [b[0]] + b[1..];
      case Dict(_) =>
        BraceBody(d, a, r);
        BraceBody(e, b, s);
        MembersAgree(d, e, 0, a[1..], b[1..], r, s);
        assert d.members == d.members[0..] && e.members == e.members[0..];
        assert a == [a[0]] + a[1..] && b == [b[0]] + b[1..];
      case _ =>
        LeavesAgree(d, e, a, b, r, s);
    }
  }

  lemma LeavesAgree(d: Doc, e: Doc, a: seq<string>, b: seq<string>, r: string, s: string)
    requires !d.List? && !d.Dict? && KindOf(d) == KindOf(e)
    requires Valid(d) && Valid(e) && Spacing(a, Tokens(d)) && Spacing(b, Tokens(e)) && EndsNumber(r) && EndsNumber(s)
    requires Body(d, a, r) == Body(e, b, s) && a[0] == b[0]
    ensures d == e && a == b && r == s
  {
    match d {
      case Nil =>
        assert r == ("null" + r)[4..] && s == ("null" + s)[4..];
      case Flag(flag) =>
        assert ("true" + r)[0] == 't' && ("false" + r)[0] == 'f' && ("true" + s)[0] == 't' && ("false" + s)[0] == 'f';
        var word := if flag then "true" else "false";
        assert r == (word + r)[|word|..] && s == (word + s)[|word|..];
      case Num(_, _, _, _) => NumbersAgree(d, e, r, s);
      case Quoted(body) => StringsAgree(body, e.body, r, s);
    }
  }

  // ---------------------------------------------------------------- punctuation

  predicate Punctuation(token: string) { token == "," || token == ":" || token == "]" || token == "}" }

  /** The text of tokens that start with punctuation, without the whitespace before it. */
  function FromPunctuation(tokens: seq<string>, spaces: seq<string>, rest: string): string
    requires tokens != [] && |spaces| == |tokens|
  {
    tokens[0] + Laid(tokens[1..], spaces[1..], rest)
  }

  lemma PunctuationStarts(tokens: seq<string>, spaces: seq<string>, rest: string)
    requires tokens != [] && Punctuation(tokens[0]) && Spacing(spaces, tokens)
    ensures var t := FromPunctuation(tokens, spaces, rest);
            && Laid(tokens, spaces, rest) == spaces[0] + t
            && GoesOn(t) && t[0] == tokens[0][0] && Kind(t[0]) == 6
            && t[1..] == Laid(tokens[1..], spaces[1..], rest)
            && EndsNumber(Laid(tokens, spaces, rest))
  {
    var t := FromPunctuation(tokens, spaces, rest);
    if spaces[0] != [] {
      assert spaces[0][0] in spaces[0] && (spaces[0] + t)[0] == spaces[0][0];
    } else {
      assert spaces[0] + t == t;
    }
  }

  lemma PunctuationAgrees(p: seq<string>, q: seq<string>, a: seq<string>, b: seq<string>, r: string, s: string)
    requires p != [] && q != [] && Punctuation(p[0]) && Punctuation(q[0]) && Spacing(a, p) && Spacing(b, q)
    requires Laid(p, a, r) == Laid(q, b, s)
    ensures p[0] == q[0] && a[0] == b[0] && Laid(p[1..], a[1..], r) == Laid(q[1..], b[1..], s)
  {
    PunctuationStarts(p, a, r);
    PunctuationStarts(q, b, s);
    SpacesAgree(a[0], b[0], FromPunctuation(p, a, r), FromPunctuation(q, b, s));
  }

  /** No document starts like punctuation. */
  lemma DocIsNoPunctuation(d: Doc, q: seq<string>, a: seq<string>, b: seq<string>, r: string, s: string)
    requires Valid(d) && Spacing(a, Tokens(d))
    requires q != [] && Punctuation(q[0]) && Spacing(b, q)
    ensures Laid(Tokens(d), a, r) != Laid(q, b, s)
  {
    DocStarts(d, a, r);
    PunctuationStarts(q, b, s);
    if Laid(Tokens(d), a, r) == Laid(q, b, s) {
      SpacesAgree(a[0], b[0], Body(d, a, r), FromPunctuation(q, b, s));
    }
  }

  lemma LastPunctuation(token: string, spaces: seq<string>, rest: string)
    requires |spaces| == 1
    ensures Laid([token][1..], spaces[1..], rest) == rest && spaces == [spaces[0]]
  {
    assert [token][1..] == [] && spaces[1..] == [];
    assert Laid([], [], rest) == rest;
  }

  lemma PartsAgree<T>(a: seq<T>, b: seq<T>, n: nat)
    requires n <= |a| && n <= |b| && a[..n] == b[..n] && a[n..] == b[n..]
    ensures a == b
  {
    assert a == a[..n] + a[n..] && b == b[..n] + b[n..];
  }

  // ---------------------------------------------------------------- lists

  /** The items from index i on, and the closing bracket. */
  function ItemsClosed(d: Doc, i: nat): seq<string>
    requires d.List? && i <= |d.items|
  {
    ItemTokens(d, i) + ["]"]
  }

  function AfterItemTokens(d: Doc, i: nat): seq<string>
    requires d.List? && i < |d.items|
  {
    if i + 1 == |d.items| then ["]"] else [","] + ItemsClosed(d, i + 1)
  }

  lemma ItemThenRest(d: Doc, i: nat)
    requires d.List? && i < |d.items|
    ensures ItemsClosed(d, i) == Tokens(d.items[i]) + AfterItemTokens(d, i)
    ensures Punctuation(AfterItemTokens(d, i)[0])
    ensures i + 1 < |d.items| ==> AfterItemTokens(d, i)[1..] == ItemsClosed(d, i + 1) && AfterItemTokens(d, i)[0] == ","
  {
    if i + 1 < |d.items| {
      assert Tokens(d.items[i]) + ([","] + ItemTokens(d, i + 1)) + ["]"] == Tokens(d.items[i]) + ([","] + (ItemTokens(d, i + 1) + ["]"]));
      assert ([","] + ItemsClosed(d, i + 1))[1..] == ItemsClosed(d, i + 1);
    }
  }

  lemma BracketBody(d: Doc, spaces: seq<string>, rest: string)
    requires d.List? && |spaces| == |Tokens(d)|
    ensures |spaces[1..]| == |ItemsClosed(d, 0)|
    ensures Body(d, spaces, rest) != [] && Body(d, spaces, rest)[1..] == Laid(ItemsClosed(d, 0), spaces[1..], rest)
    ensures Spacing(spaces, Tokens(d)) ==> Spacing(spaces[1..], ItemsClosed(d, 0))
  {
    assert Tokens(d)[0] == "[" && Tokens(d)[1..] == ItemsClosed(d, 0);
  }

  lemma ItemsEnd(d: Doc, e: Doc, i: nat, a: seq<string>, b: seq<string>, r: string, s: string)
    requires d.List? && e.List? && Valid(d) && Valid(e) && i <= |d.items| && i <= |e.items| && (i == |d.items| || i == |e.items|)
    requires Spacing(a, ItemsClosed(d, i)) && Spacing(b, ItemsClosed(e, i))
    requires Laid(ItemsClosed(d, i), a, r) == Laid(ItemsClosed(e, i), b, s)
    ensures i == |d.items| == |e.items| && a == b && r == s
  {
    if i < |d.items| {
      ItemIsNoBracket(d, i, e, a, b, r, s);
    } else if i < |e.items| {
      ItemIsNoBracket(e, i, d, b, a, s, r);
    } else {
      assert ItemsClosed(d, i) == ["]"] == ItemsClosed(e, i);
      PunctuationAgrees(["]"], ["]"], a, b, r, s);
      LastPunctuation("]", a, r);
      LastPunctuation("]", b, s);
    }
  }

  lemma ItemIsNoBracket(d: Doc, i: nat, e: Doc, a: seq<string>, b: seq<string>, r: string, s: string)
    requires d.List? && Valid(d) && i < |d.items| && e.List? && i == |e.items|
    requires Spacing(a, ItemsClosed(d, i)) && Spacing(b, ItemsClosed(e, i))
    ensures Laid(ItemsClosed(d, i), a, r) != Laid(ItemsClosed(e, i), b, s)
  {
    var first, after := Tokens(d.items[i]), AfterItemTokens(d, i);
    ItemThenRest(d, i);
    LaidConcat(first, after, a, r);
    assert ItemsClosed(e, i) == ["]"];
    DocIsNoPunctuation(d.items[i], ["]"], a[..|first|], b, Laid(after, a[|first|..], r), s);
  }

  lemma {:induction false} ItemsAgree(d: Doc, e: Doc, i: nat, a: seq<string>, b: seq<string>, r: string, s: string)
    requires d.List? && e.List? && Valid(d) && Valid(e) && i <= |d.items| && i <= |e.items|
    requires Spacing(a, ItemsClosed(d, i)) && Spacing(b, ItemsClosed(e, i)) && EndsNumber(r) && EndsNumber(s)
    requires Laid(ItemsClosed(d, i), a, r) == Laid(ItemsClosed(e, i), b, s)
    ensures d.items[i..] == e.items[i..] && a == b && r == s
    decreases d, 0, |d.items| - i, 0
  {
    if i == |d.items| || i == |e.items| {
      ItemsEnd(d, e, i, a, b, r, s);
    } else {
      var x, y := Tokens(d.items[i]), Tokens(e.items[i]);
      var p, q := AfterItemTokens(d, i), AfterItemTokens(e, i);
      ItemThenRest(d, i);
      ItemThenRest(e, i);
      SplitLaid(x, p, a, r);
      SplitLaid(y, q, b, s);
      TextsAgree(d.items[i], e.items[i], a[..|x|], b[..|y|], Laid(p, a[|x|..], r), Laid(q, b[|y|..], s));
      AfterItemsAgree(d, e, i, a[|x|..], b[|y|..], r, s);
      PartsAgree(a, b, |x|);
    }
  }

  lemma {:induction false} AfterItemsAgree(d: Doc, e: Doc, i: nat, a: seq<string>, b: seq<string>, r: string, s: string)
    requires d.List? && e.List? && Valid(d) && Valid(e) && i < |d.items| && i < |e.items|
    requires Spacing(a, AfterItemTokens(d, i)) && Spacing(b, AfterItemTokens(e, i)) && EndsNumber(r) && EndsNumber(s)
    requires Laid(AfterItemTokens(d, i), a, r) == Laid(AfterItemTokens(e, i), b, s)
    ensures d.items[i + 1..] == e.items[i + 1..] && a == b && r == s
    decreases d, 0, |d.items| - i - 1, 1
  {
    ItemThenRest(d, i);
    ItemThenRest(e, i);
    PunctuationAgrees(AfterItemTokens(d, i), AfterItemTokens(e, i), a, b, r, s);
    if i + 1 < |d.items| {
      ItemsAgree(d, e, i + 1, a[1..], b[1..], r, s);
      assert a == [a[0]] + a[1..] && b == [b[0]] + b[1..];
    } else {
      LastPunctuation("]", a, r);
      LastPunctuation("]", b, s);
    }
  }

  lemma SplitLaid(first: seq<string>, after: seq<string>, spaces: seq<string>, rest: string)
    requires after != [] && Punctuation(after[0]) && Spacing(spaces, first + after)
    ensures Spacing(spaces[..|first|], first) && Spacing(spaces[|first|..], after)
    ensures Laid(first + after, spaces, rest) == Laid(first, spaces[..|first|], Laid(after, spaces[|first|..], rest))
    ensures EndsNumber(Laid(after, spaces[|first|..], rest))
  {
    LaidConcat(first, after, spaces, rest);
    PunctuationStarts(after, spaces[|first|..], rest);
  }

  // ---------------------------------------------------------------- objects

  function MembersClosed(d: Doc, i: nat): seq<string>
    requires d.Dict? && i <= |d.members|
  {
    MemberTokens(d, i) + ["}"]
  }

  function AfterMemberTokens(d: Doc, i: nat): seq<string>
    requires d.Dict? && i < |d.members|
  {
    if i + 1 == |d.members| then ["}"] else [","] + MembersClosed(d, i + 1)
  }

  /** The value of member i and what follows it. */
  function FromValue(d: Doc, i: nat): seq<string>
    requires d.Dict? && i < |d.members|
  {
    Tokens(d.members[i].1) + AfterMemberTokens(d, i)
  }

  lemma MemberThenRest(d: Doc, i: nat)
    requires d.Dict? && i < |d.members|
    ensures MembersClosed(d, i) == Tokens(Quoted(d.members[i].0)) + ([":"] + FromValue(d, i))
    ensures Punctuation(AfterMemberTokens(d, i)[0])
    ensures i + 1 < |d.members| ==> AfterMemberTokens(d, i)[1..] == MembersClosed(d, i + 1) && AfterMemberTokens(d, i)[0] == ","
  {
    var key, value := [QuotedText(d.members[i].0)], Tokens(d.members[i].1);
    assert [QuotedText(d.members[i].0), ":"] + value == key + ([":"] + value);
    if i + 1 < |d.members| {
      RegroupMember(key, value, MemberTokens(d, i + 1));
      assert ([","] + MembersClosed(d, i + 1))[1..] == MembersClosed(d, i + 1);
    } else {
      assert key + ([":"] + value) + ["}"] == key + ([":"] + (value + ["}"]));
    }
  }

  lemma RegroupMember(key: seq<string>, value: seq<string>, more: seq<string>)
    ensures key + ([":"] + value) + ([","] + more) + ["}"] == key + ([":"] + (value + ([","] + (more + ["}"]))))
  {
  }

  lemma BraceBody(d: Doc, spaces: seq<string>, rest: string)
    requires d.Dict? && |spaces| == |Tokens(d)|
    ensures |spaces[1..]| == |MembersClosed(d, 0)|
    ensures Body(d, spaces, rest) != [] && Body(d, spaces, rest)[1..] == Laid(MembersClosed(d, 0), spaces[1..], rest)
    ensures Spacing(spaces, Tokens(d)) ==> Spacing(spaces[1..], MembersClosed(d, 0))
  {
    assert Tokens(d)[0] == "{" && Tokens(d)[1..] == MembersClosed(d, 0);
  }

  lemma MembersEnd(d: Doc, e: Doc, i: nat, a: seq<string>, b: seq<string>, r: string, s: string)
    requires d.Dict? && e.Dict? && Valid(d) && Valid(e)
    requires i <= |d.members| && i <= |e.members| && (i == |d.members| || i == |e.members|)
    requires Spacing(a, MembersClosed(d, i)) && Spacing(b, MembersClosed(e, i))
    requires Laid(MembersClosed(d, i), a, r) == Laid(MembersClosed(e, i), b, s)
    ensures i == |d.members| == |e.members| && a == b && r == s
  {
    if i < |d.members| {
      MemberIsNoBrace(d, i, e, a, b, r, s);
    } else if i < |e.members| {
      MemberIsNoBrace(e, i, d, b, a, s, r);
    } else {
      assert MembersClosed(d, i) == ["}"] == MembersClosed(e, i);
      PunctuationAgrees(["}"], ["}"], a, b, r, s);
      LastPunctuation("}", a, r);
      LastPunctuation("}", b, s);
    }
  }

  lemma MemberIsNoBrace(d: Doc, i: nat, e: Doc, a: seq<string>, b: seq<string>, r: string, s: string)
    requires d.Dict? && Valid(d) && i < |d.members| && e.Dict? && i == |e.members|
    requires Spacing(a, MembersClosed(d, i)) && Spacing(b, MembersClosed(e, i))
    ensures Laid(MembersClosed(d, i), a, r) != Laid(MembersClosed(e, i), b, s)
  {
    var key, after := Tokens(Quoted(d.members[i].0)), [":"] + FromValue(d, i);
    MemberThenRest(d, i);
    LaidConcat(key, after, a, r);
    assert MembersClosed(e, i) == ["}"];
    DocIsNoPunctuation(Quoted(d.members[i].0), ["}"], a[..|key|], b, Laid(after, a[|key|..], r), s);
  }

  lemma KeysAgree(key: string, other: string, a: seq<string>, b: seq<string>, r: string, s: string)
    requires Valid(Quoted(key)) && Valid(Quoted(other)) && EndsNumber(r) && EndsNumber(s)
    requires Spacing(a, Tokens(Quoted(key))) && Spacing(b, Tokens(Quoted(other)))
    requires Laid(Tokens(Quoted(key)), a, r) == Laid(Tokens(Quoted(other)), b, s)
    ensures key == other && a == b && r == s
  {
    var d, e := Quoted(key), Quoted(other);
    DocStarts(d, a, r);
    DocStarts(e, b, s);
    SpacesAgree(a[0], b[0], Body(d, a, r), Body(e, b, s));
    LeavesAgree(d, e, a, b, r, s);
  }

  /** The names and colons of member i agree, and so do the texts from their values on. */
  lemma NamesAgree(d: Doc, e: Doc, i: nat, a: seq<string>, b: seq<string>, r: string, s: string)
    requires d.Dict? && e.Dict? && Valid(d) && Valid(e) && i < |d.members| && i < |e.members|
    requires Spacing(a, MembersClosed(d, i)) && Spacing(b, MembersClosed(e, i))
    requires Laid(MembersClosed(d, i), a, r) == Laid(MembersClosed(e, i), b, s)
    ensures |a| == 2 + |FromValue(d, i)| && |b| == 2 + |FromValue(e, i)|
    ensures d.members[i].0 == e.members[i].0 && a[0] == b[0] && a[1] == b[1]
    ensures Spacing(a[2..], FromValue(d, i)) && Spacing(b[2..], FromValue(e, i))
    ensures Laid(FromValue(d, i), a[2..], r) == Laid(FromValue(e, i), b[2..], s)
  {
    var p, q := [":"] + FromValue(d, i), [":"] + FromValue(e, i);
    MemberThenRest(d, i);
    MemberThenRest(e, i);
    SplitLaid(Tokens(Quoted(d.members[i].0)), p, a, r);
    SplitLaid(Tokens(Quoted(e.members[i].0)), q, b, s);
    KeysAgree(d.members[i].0, e.members[i].0, a[..1], b[..1], Laid(p, a[1..], r), Laid(q, b[1..], s));
    PunctuationAgrees(p, q, a[1..], b[1..], r, s);
    assert p[1..] == FromValue(d, i) && q[1..] == FromValue(e, i);
    assert a[1..][1..] == a[2..] && b[1..][1..] == b[2..];
  }

  lemma {:induction false} MembersAgree(d: Doc, e: Doc, i: nat, a: seq<string>, b: seq<string>, r: string, s: string)
    requires d.Dict? && e.Dict? && Valid(d) && Valid(e) && i <= |d.members| && i <= |e.members|
    requires Spacing(a, MembersClosed(d, i)) && Spacing(b, MembersClosed(e, i)) && EndsNumber(r) && EndsNumber(s)
    requires Laid(MembersClosed(d, i), a, r) == Laid(MembersClosed(e, i), b, s)
    ensures d.members[i..] == e.members[i..] && a == b && r == s
    decreases d, 0, |d.members| - i, 0
  {
    if i == |d.members| || i == |e.members| {
      MembersEnd(d, e, i, a, b, r, s);
    } else {
      NamesAgree(d, e, i, a, b, r, s);
      ValuesAgree(d, e, i, a[2..], b[2..], r, s);
      assert a[..2] == [a[0], a[1]] && b[..2] == [b[0], b[1]];
      PartsAgree(a, b, 2);
      assert d.members[i] == (d.members[i].0, d.members[i].1) && e.members[i] == (e.members[i].0, e.members[i].1);
    }
  }

  lemma {:induction false} ValuesAgree(d: Doc, e: Doc, i: nat, a: seq<string>, b: seq<string>, r: string, s: string)
    requires d.Dict? && e.Dict? && Valid(d) && Valid(e) && i < |d.members| && i < |e.members|
    requires Spacing(a, FromValue(d, i)) && Spacing(b, FromValue(e, i)) && EndsNumber(r) && EndsNumber(s)
    requires Laid(FromValue(d, i), a, r) == Laid(FromValue(e, i), b, s)
    ensures d.members[i].1 == e.members[i].1 && d.members[i + 1..] == e.members[i + 1..] && a == b && r == s
    decreases d, 0, |d.members| - i - 1, 2
  {
    var x, y := Tokens(d.members[i].1), Tokens(e.members[i].1);
    var p, q := AfterMemberTokens(d, i), AfterMemberTokens(e, i);
    MemberThenRest(d, i);
    MemberThenRest(e, i);
    SplitLaid(x, p, a, r);
    SplitLaid(y, q, b, s);
    TextsAgree(d.members[i].1, e.members[i].1, a[..|x|], b[..|y|], Laid(p, a[|x|..], r), Laid(q, b[|y|..], s));
    AfterMembersAgree(d, e, i, a[|x|..], b[|y|..], r, s);
    PartsAgree(a, b, |x|);
  }

  lemma {:induction false} AfterMembersAgree(d: Doc, e: Doc, i: nat, a: seq<string>, b: seq<string>, r: string, s: string)
    requires d.Dict? && e.Dict? && Valid(d) && Valid(e) && i < |d.members| && i < |e.members|
    requires Spacing(a, AfterMemberTokens(d, i)) && Spacing(b, AfterMemberTokens(e, i)) && EndsNumber(r) && EndsNumber(s)
    requires Laid(AfterMemberTokens(d, i), a, r) == Laid(AfterMemberTokens(e, i), b, s)
    ensures d.members[i + 1..] == e.members[i + 1..] && a == b && r == s
    decreases d, 0, |d.members| - i - 1, 1
  {
    MemberThenRest(d, i);
    MemberThenRest(e, i);
    PunctuationAgrees(AfterMemberTokens(d, i), AfterMemberTokens(e, i), a, b, r, s);
    if i + 1 < |d.members| {
      MembersAgree(d, e, i + 1, a[1..], b[1..], r, s);
      assert a == [a[0]] + a[1..] && b == [b[0]] + b[1..];
    } else {
      LastPunctuation("}", a, r);
      LastPunctuation("}", b, s);
    }
  }

  // ---------------------------------------------------------------- one text, one value

  /** A JSON text is laid out from one document only, so it has at most one value. */
  lemma OneTextOneReading(d: Doc, e: Doc, a: seq<string>, b: seq<string>)
    requires Valid(d) && Valid(e) && Spacing(a, Tokens(d)) && Spacing(b, Tokens(e))
    requires Laid(Tokens(d), a, "") == Laid(Tokens(e), b, "")
    ensures d == e && a == b
    ensures ValueOf(d) == ValueOf(e)
  {
    TextsAgree(d, e, a, b, "", "");
  }

  /** The text has the value. */
  ghost predicate Reads(text: string, v: Value) {
    exists d, spaces :: Spacing(spaces, Tokens(d)) && Laid(Tokens(d), spaces, "") == text && ValueOf(d) == Some(v)
  }

  /** What a reader of JSON is asked for: the value a text has, if it has one. */
  ghost function ReadingOf(text: string): Option<Value> {
    if exists v :: Reads(text, v) then
      var v :| Reads(text, v);
      Some(v)
    else None
  }

  lemma ReadingIsTheValue(d: Doc, spaces: seq<string>)
    requires Spacing(spaces, Tokens(d)) && ValueOf(d).Some?
    ensures ReadingOf(Laid(Tokens(d), spaces, "")) == ValueOf(d)
  {
    var text := Laid(Tokens(d), spaces, "");
    assert Reads(text, ValueOf(d).value);
    forall v | Reads(text, v) ensures v == ValueOf(d).value {
      var e, b :| Spacing(b, Tokens(e)) && Laid(Tokens(e), b, "") == text && ValueOf(e) == Some(v);
      ValuesAreOfValidTexts(d);
      ValuesAreOfValidTexts(e);
      OneTextOneReading(d, e, spaces, b);
    }
  }

  /** The signed bytes of a value are read as that value and no other. */
  lemma CanonicalIsReadAsItsValue(v: Value)
    ensures ReadingOf(Release.Canonical(v)) == Some(v)
  {
    CanonicalIsATextOfItsValue(v);
    ReadingIsTheValue(CanonicalDoc(v), NoSpaces(|Tokens(CanonicalDoc(v))|));
  }
}
