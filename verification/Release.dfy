/**
  The canonical JSON encoding a release manifest is signed over: compact, keys
  sorted, strings escaped as section 7 of RFC 8259 asks.
 */
module Release {
  import opened Wrappers
  import opened Text
  import opened Json

  // ---------------------------------------------------------------- encoding

  function HexChar(n: nat): (c: char)
    requires n < 16
    ensures c as int == if n < 10 then '0' as int + n else 'a' as int + n - 10
  {
    "0123456789abcdef"[n]
  }

  function Escape(c: char): (s: string)
    ensures s != []
  {
    if c == '\"' then "\\\""
    else if c == '\\' then "\\\\"
    else if c as int == 0x08 then "\\b"
    else if c as int == 0x0C then "\\f"
    else if c == '\n' then "\\n"
    else if c == '\r' then "\\r"
    else if c == '\t' then "\\t"
    else if c as int < 0x20 then "\\u00" + [HexChar(c as int / 16), HexChar(c as int % 16)]
    else [c]
  }

  // The encodings below are given together with the text that follows them.

  function EscapedThen(s: string, rest: string): string {
    if s == [] then rest else Escape(s[0]) + EscapedThen(s[1..], rest)
  }

  function QuotedThen(s: string, rest: string): string { "\"" + EscapedThen(s, "\"" + rest) }

  function Numeral(n: int): string { if n < 0 then "-" + Decimal(-n) else Decimal(n) }

  /** The one listing of a key set in sorted order. */
  ghost function SortedKeys(keys: set<string>): (s: seq<string>)
    ensures Sorted(s) && Elements(s) == keys
  {
    SortedListingExists(keys);
    var s :| Sorted(s) && Elements(s) == keys;
    s
  }

  ghost function CanonicalThen(v: Value, rest: string): string
    decreases v, 1, 0
  {
    match v
    case Null => "null" + rest
    case Bool(flag) => (if flag then "true" else "false") + rest
    case Number(n) => Numeral(n) + rest
    case String(text) => QuotedThen(text, rest)
    case Array(items) => "[" + ItemsThen(v, 0, "]" + rest)
    case Object(fields) => "{" + MembersThen(v, SortedKeys(fields.Keys), 0, "}" + rest)
  }

  /** The items from index i on, separated by commas. */
  ghost function ItemsThen(v: Value, i: nat, rest: string): string
    requires v.Array? && i <= |v.items|
    decreases v, 0, |v.items| - i, 1
  {
    if i == |v.items| then rest else CanonicalThen(v.items[i], AfterItem(v, i, rest))
  }

  ghost function AfterItem(v: Value, i: nat, rest: string): string
    requires v.Array? && i < |v.items|
    decreases v, 0, |v.items| - i, 0
  {
    if i + 1 < |v.items| then "," + ItemsThen(v, i + 1, rest) else rest
  }

  ghost predicate KeysOf(v: Value, keys: seq<string>) {
    v.Object? && forall i :: 0 <= i < |keys| ==> keys[i] in v.fields
  }

  ghost function MembersThen(v: Value, keys: seq<string>, i: nat, rest: string): string
    requires i <= |keys| && KeysOf(v, keys)
    decreases v, 0, |keys| - i, 1
  {
    if i == |keys| then rest
    else QuotedThen(keys[i], ":" + CanonicalThen(v.fields[keys[i]], AfterMember(v, keys, i, rest)))
  }

  ghost function AfterMember(v: Value, keys: seq<string>, i: nat, rest: string): string
    requires i < |keys| && KeysOf(v, keys)
    decreases v, 0, |keys| - i, 0
  {
    if i + 1 < |keys| then "," + MembersThen(v, keys, i + 1, rest) else rest
  }

  ghost function Canonical(v: Value): string { CanonicalThen(v, "") }

  // ---------------------------------------------------------------- unambiguity

  predicate StartsWithDigit(s: string) { s != [] && IsDigit(s[0]) }

  function LeadingDigits(s: string): nat { if StartsWithDigit(s) then 1 + LeadingDigits(s[1..]) else 0 }

  lemma {:induction false} DigitRunIsCounted(a: string, r: string)
    requires AllDigits(a) && !StartsWithDigit(r)
    ensures LeadingDigits(a + r) == |a|
    decreases |a|
  {
    if a == [] {
      assert a + r == r;
    } else {
      assert a[0] in a;
      assert (a + r)[1..] == a[1..] + r;
      DigitRunIsCounted(a[1..], r);
    }
  }

  lemma DigitRunsAreDelimited(a: string, b: string, r: string, s: string)
    requires AllDigits(a) && AllDigits(b) && !StartsWithDigit(r) && !StartsWithDigit(s)
    requires a + r == b + s
    ensures a == b && r == s
  {
    DigitRunIsCounted(a, r);
    DigitRunIsCounted(b, s);
    assert a == (a + r)[..|a|] && b == (b + s)[..|b|];
    assert r == (a + r)[|a|..] && s == (b + s)[|b|..];
  }

  lemma NumeralsAreUnambiguous(m: int, n: int, r: string, s: string)
    requires !StartsWithDigit(r) && !StartsWithDigit(s)
    requires Numeral(m) + r == Numeral(n) + s
    ensures m == n && r == s
  {
    SameSign(m, n, r, s);
    if m < 0 {
      NegativesAreUnambiguous(-m, -n, r, s);
    } else {
      NaturalsAreUnambiguous(m, n, r, s);
    }
  }

  lemma SameSign(m: int, n: int, r: string, s: string)
    requires Numeral(m) + r == Numeral(n) + s
    ensures m < 0 <==> n < 0
  {
    FirstOfNumeral(m, r);
    FirstOfNumeral(n, s);
  }

  lemma NaturalsAreUnambiguous(m: nat, n: nat, r: string, s: string)
    requires !StartsWithDigit(r) && !StartsWithDigit(s)
    requires Decimal(m) + r == Decimal(n) + s
    ensures m == n && r == s
  {
    DigitRunsAreDelimited(Decimal(m), Decimal(n), r, s);
    DecimalInjective(m, n);
  }

  lemma NegativesAreUnambiguous(m: int, n: int, r: string, s: string)
    requires m > 0 && n > 0 && !StartsWithDigit(r) && !StartsWithDigit(s)
    requires Numeral(-m) + r == Numeral(-n) + s
    ensures m == n && r == s
  {
    DropSign(Decimal(m), Decimal(n), r, s);
    NaturalsAreUnambiguous(m, n, r, s);
  }

  lemma DropSign(a: string, b: string, r: string, s: string)
    requires "-" + a + r == "-" + b + s
    ensures a + r == b + s
  {
    assert ("-" + a + r)[1..] == a + r && ("-" + b + s)[1..] == b + s;
  }

  lemma FirstOfNumeral(n: int, rest: string)
    ensures Numeral(n) + rest != []
    ensures if n < 0 then (Numeral(n) + rest)[0] == '-' else IsDigit((Numeral(n) + rest)[0])
  {
    var d := Decimal(if n < 0 then -n else n);
    assert d[0] in d;
  }

  lemma EscapeIsInjective(c: char, d: char)
    requires Escape(c) == Escape(d)
    ensures c == d
  {
    if |Escape(c)| == 6 {
      assert Escape(c)[4] == HexChar(c as int / 16) && Escape(c)[5] == HexChar(c as int % 16);
      assert Escape(d)[4] == HexChar(d as int / 16) && Escape(d)[5] == HexChar(d as int % 16);
    } else {
      assert Escape(c)[|Escape(c)| - 1] == Escape(d)[|Escape(d)| - 1];
    }
  }

  /** The first two characters of an escape sequence give its length. */
  lemma EscapeLength(c: char)
    ensures |Escape(c)| == if Escape(c)[0] != '\\' then 1 else if Escape(c)[1] == 'u' then 6 else 2
  {
  }

  /** Escaped is what section 7 of RFC 8259 wants escaped, and nothing else; with two characters wherever there is such a form. */
  lemma EscapedOnlyWhereNeeded(c: char)
    ensures Escape(c) == [c] <==> c != '\"' && c != '\\' && c as int >= 0x20
    ensures |Escape(c)| == 2 <==> c in {'\"', '\\', '\n', '\r', '\t'} || c as int == 0x08 || c as int == 0x0C
    ensures |Escape(c)| == 6 ==> c as int == 16 * DigitOfHex(Escape(c)[4]) + DigitOfHex(Escape(c)[5])
  {
    EscapeLength(c);
  }

  function DigitOfHex(c: char): int { if c <= '9' then c as int - '0' as int else c as int - 'a' as int + 10 }

  /** No escape sequence is the start of another. */
  lemma EscapesAreUnambiguous(c: char, d: char, r: string, s: string)
    requires Escape(c) + r == Escape(d) + s
    ensures c == d && r == s
  {
    var x, y := Escape(c) + r, Escape(d) + s;
    EscapeLength(c);
    EscapeLength(d);
    assert x[0] == Escape(c)[0] && y[0] == Escape(d)[0];
    if |Escape(c)| > 1 {
      assert x[1] == Escape(c)[1] && y[1] == Escape(d)[1];
    }
    assert Escape(c) == x[..|Escape(c)|] && Escape(d) == y[..|Escape(d)|];
    EscapeIsInjective(c, d);
    assert r == x[|Escape(c)|..] && s == y[|Escape(d)|..];
  }

  lemma EscapedStart(s: string, rest: string)
    requires s != []
    ensures EscapedThen(s, rest) != [] && EscapedThen(s, rest)[0] == Escape(s[0])[0] != '\"'
  {
  }

  lemma {:induction false} EscapedIsUnambiguous(a: string, b: string, r: string, s: string)
    requires EscapedThen(a, "\"" + r) == EscapedThen(b, "\"" + s)
    ensures a == b && r == s
    decreases |a|
  {
    if a == [] || b == [] {
      if b != [] {
        EscapedStart(b, "\"" + s);
        assert false;
      } else if a != [] {
        EscapedStart(a, "\"" + r);
        assert false;
      } else {
        assert r == ("\"" + r)[1..] && s == ("\"" + s)[1..];
      }
    } else {
      EscapesAreUnambiguous(a[0], b[0], EscapedThen(a[1..], "\"" + r), EscapedThen(b[1..], "\"" + s));
      EscapedIsUnambiguous(a[1..], b[1..], r, s);
      assert a == [a[0]] + a[1..] && b == [b[0]] + b[1..];
    }
  }

  lemma QuotedIsUnambiguous(a: string, b: string, r: string, s: string)
    requires QuotedThen(a, r) == QuotedThen(b, s)
    ensures a == b && r == s
  {
    assert QuotedThen(a, r)[1..] == EscapedThen(a, "\"" + r) && QuotedThen(b, s)[1..] == EscapedThen(b, "\"" + s);
    EscapedIsUnambiguous(a, b, r, s);
  }

  /** What may follow a value: the end, a comma or a closing bracket. */
  predicate Delimits(s: string) { s == [] || s[0] == ',' || s[0] == ']' || s[0] == '}' }

  function FirstChar(v: Value): char {
    match v
    case Null => 'n'
    case Bool(flag) => if flag then 't' else 'f'
    case Number(n) => Numeral(n)[0]
    case String(_) => '\"'
    case Array(_) => '['
    case Object(_) => '{'
  }

  lemma CanonicalStart(v: Value, rest: string)
    ensures CanonicalThen(v, rest) != [] && CanonicalThen(v, rest)[0] == FirstChar(v)
    ensures v.Number? <==> FirstChar(v) == '-' || IsDigit(FirstChar(v))
    ensures FirstChar(v) != ',' && FirstChar(v) != ']' && FirstChar(v) != '}'
  {
    if v.Number? {
      FirstOfNumeral(v.number, rest);
      FirstOfNumeral(v.number, []);
      assert Numeral(v.number) + [] == Numeral(v.number);
    }
  }

  /** Equal encodings, each followed by a delimiter, encode equal values and are followed by equal text. */
  lemma {:induction false} CanonicalIsUnambiguous(v: Value, w: Value, r: string, s: string)
    requires Delimits(r) && Delimits(s)
    requires CanonicalThen(v, r) == CanonicalThen(w, s)
    ensures v == w && r == s
    decreases v, 2, 0
  {
    CanonicalStart(v, r);
    CanonicalStart(w, s);
    match v {
      case Null =>
        assert r == ("null" + r)[4..] && s == ("null" + s)[4..];
      case Bool(flag) =>
        var word := if flag then "true" else "false";
        assert r == (word + r)[|word|..] && s == (word + s)[|word|..];
      case Number(n) =>
        NumeralsAreUnambiguous(n, w.number, r, s);
      case String(text) =>
        QuotedIsUnambiguous(text, w.text, r, s);
      case Array(items) =>
        assert CanonicalThen(v, r)[1..] == ItemsThen(v, 0, "]" + r) && CanonicalThen(w, s)[1..] == ItemsThen(w, 0, "]" + s);
        ItemsAreUnambiguous(v, w, 0, r, s);
        assert v.items == v.items[0..] && w.items == w.items[0..];
      case Object(fields) =>
        ObjectIsUnambiguous(v, w, r, s);
    }
  }

  lemma ObjectIsUnambiguous(v: Value, w: Value, r: string, s: string)
    requires v.Object? && w.Object?
    requires CanonicalThen(v, r) == CanonicalThen(w, s)
    ensures v == w && r == s
    decreases v, 1, 0
  {
    var a, b := SortedKeys(v.fields.Keys), SortedKeys(w.fields.Keys);
    assert CanonicalThen(v, r)[1..] == MembersThen(v, a, 0, "}" + r) && CanonicalThen(w, s)[1..] == MembersThen(w, b, 0, "}" + s);
    MembersAreUnambiguous(v, w, a, b, 0, r, s);
    assert a == a[0..] && b == b[0..];
  }

  lemma ItemsEndTogether(v: Value, w: Value, i: nat, r: string, s: string)
    requires v.Array? && w.Array? && i <= |v.items| && i <= |w.items| && (i == |v.items| || i == |w.items|)
    requires ItemsThen(v, i, "]" + r) == ItemsThen(w, i, "]" + s)
    ensures i == |v.items| == |w.items| && r == s
  {
    if i < |v.items| {
      CanonicalStart(v.items[i], AfterItem(v, i, "]" + r));
    }
    if i < |w.items| {
      CanonicalStart(w.items[i], AfterItem(w, i, "]" + s));
    }
    assert r == ("]" + r)[1..] && s == ("]" + s)[1..];
  }

  lemma ItemsGoOnTogether(v: Value, w: Value, i: nat, r: string, s: string)
    requires v.Array? && w.Array? && i < |v.items| && i < |w.items|
    requires AfterItem(v, i, "]" + r) == AfterItem(w, i, "]" + s)
    ensures (i + 1 == |v.items| <==> i + 1 == |w.items|)
    ensures ItemsThen(v, i + 1, "]" + r) == ItemsThen(w, i + 1, "]" + s)
  {
    var x, y := AfterItem(v, i, "]" + r), AfterItem(w, i, "]" + s);
    assert x[0] == (if i + 1 < |v.items| then ',' else ']') && y[0] == (if i + 1 < |w.items| then ',' else ']');
    if i + 1 < |v.items| {
      assert x[1..] == ItemsThen(v, i + 1, "]" + r) && y[1..] == ItemsThen(w, i + 1, "]" + s);
    }
  }

  lemma {:induction false} ItemsAreUnambiguous(v: Value, w: Value, i: nat, r: string, s: string)
    requires v.Array? && w.Array? && i <= |v.items| && i <= |w.items|
    requires ItemsThen(v, i, "]" + r) == ItemsThen(w, i, "]" + s)
    ensures v.items[i..] == w.items[i..] && r == s
    decreases v, 0, |v.items| - i
  {
    if i == |v.items| || i == |w.items| {
      ItemsEndTogether(v, w, i, r, s);
    } else {
      CanonicalIsUnambiguous(v.items[i], w.items[i], AfterItem(v, i, "]" + r), AfterItem(w, i, "]" + s));
      ItemsGoOnTogether(v, w, i, r, s);
      ItemsAreUnambiguous(v, w, i + 1, r, s);
      assert v.items[i..] == [v.items[i]] + v.items[i + 1..] && w.items[i..] == [w.items[i]] + w.items[i + 1..];
    }
  }

  lemma MembersEndTogether(v: Value, w: Value, a: seq<string>, b: seq<string>, i: nat, r: string, s: string)
    requires KeysOf(v, a) && KeysOf(w, b) && i <= |a| && i <= |b| && (i == |a| || i == |b|)
    requires MembersThen(v, a, i, "}" + r) == MembersThen(w, b, i, "}" + s)
    ensures i == |a| == |b| && r == s
  {
    assert r == ("}" + r)[1..] && s == ("}" + s)[1..];
  }

  lemma MembersGoOnTogether(v: Value, w: Value, a: seq<string>, b: seq<string>, i: nat, r: string, s: string)
    requires KeysOf(v, a) && KeysOf(w, b) && i < |a| && i < |b|
    requires AfterMember(v, a, i, "}" + r) == AfterMember(w, b, i, "}" + s)
    ensures i + 1 == |a| <==> i + 1 == |b|
    ensures MembersThen(v, a, i + 1, "}" + r) == MembersThen(w, b, i + 1, "}" + s)
  {
    var x, y := AfterMember(v, a, i, "}" + r), AfterMember(w, b, i, "}" + s);
    assert x[0] == (if i + 1 < |a| then ',' else '}') && y[0] == (if i + 1 < |b| then ',' else '}');
    if i + 1 < |a| {
      assert x[1..] == MembersThen(v, a, i + 1, "}" + r) && y[1..] == MembersThen(w, b, i + 1, "}" + s);
    }
  }

  lemma {:induction false} MembersAreUnambiguous(v: Value, w: Value, a: seq<string>, b: seq<string>, i: nat, r: string, s: string)
    requires KeysOf(v, a) && KeysOf(w, b) && i <= |a| && i <= |b|
    requires MembersThen(v, a, i, "}" + r) == MembersThen(w, b, i, "}" + s)
    ensures a[i..] == b[i..] && r == s
    ensures |a| == |b| && forall j :: i <= j < |a| ==> v.fields[a[j]] == w.fields[b[j]]
    decreases v, 0, |a| - i
  {
    if i == |a| || i == |b| {
      MembersEndTogether(v, w, a, b, i, r, s);
    } else {
      var x, y := AfterMember(v, a, i, "}" + r), AfterMember(w, b, i, "}" + s);
      var fx, fy := CanonicalThen(v.fields[a[i]], x), CanonicalThen(w.fields[b[i]], y);
      QuotedIsUnambiguous(a[i], b[i], ":" + fx, ":" + fy);
      assert fx == (":" + fx)[1..] && fy == (":" + fy)[1..];
      CanonicalIsUnambiguous(v.fields[a[i]], w.fields[b[i]], x, y);
      MembersGoOnTogether(v, w, a, b, i, r, s);
      MembersAreUnambiguous(v, w, a, b, i + 1, r, s);
      assert a[i..] == [a[i]] + a[i + 1..] && b[i..] == [b[i]] + b[i + 1..];
    }
  }

  /** The encoding determines the document. */
  lemma CanonicalIsInjective(v: Value, w: Value)
    requires Canonical(v) == Canonical(w)
    ensures v == w
  {
    CanonicalIsUnambiguous(v, w, "", "");
  }

  // ---------------------------------------------------------------- the writer

  lemma {:induction false} EscapedAppends(s: string, a: string, b: string)
    ensures EscapedThen(s, a + b) == EscapedThen(s, a) + b
  {
    if s != [] {
      EscapedAppends(s[1..], a, b);
      assert Escape(s[0]) + (EscapedThen(s[1..], a) + b) == Escape(s[0]) + EscapedThen(s[1..], a) + b;
    }
  }

  lemma QuotedAppends(s: string, a: string, b: string)
    ensures QuotedThen(s, a + b) == QuotedThen(s, a) + b
  {
    EscapedAppends(s, "\"" + a, b);
    assert "\"" + (a + b) == ("\"" + a) + b;
    assert "\"" + (EscapedThen(s, "\"" + a) + b) == "\"" + EscapedThen(s, "\"" + a) + b;
  }

  lemma {:induction false} CanonicalAppends(v: Value, a: string, b: string)
    ensures CanonicalThen(v, a + b) == CanonicalThen(v, a) + b
    decreases v, 1, 0
  {
    match v {
      case Null => assert "null" + (a + b) == "null" + a + b;
      case Bool(flag) =>
        var word := if flag then "true" else "false";
        assert word + (a + b) == word + a + b;
      case Number(n) => assert Numeral(n) + (a + b) == Numeral(n) + a + b;
      case String(text) => QuotedAppends(text, a, b);
      case Array(items) =>
        ItemsAppend(v, 0, "]" + a, b);
        assert "]" + (a + b) == ("]" + a) + b;
        assert "[" + (ItemsThen(v, 0, "]" + a) + b) == "[" + ItemsThen(v, 0, "]" + a) + b;
      case Object(fields) =>
        var keys := SortedKeys(fields.Keys);
        MembersAppend(v, keys, 0, "}" + a, b);
        assert "}" + (a + b) == ("}" + a) + b;
        assert "{" + (MembersThen(v, keys, 0, "}" + a) + b) == "{" + MembersThen(v, keys, 0, "}" + a) + b;
    }
  }

  lemma {:induction false} ItemsAppend(v: Value, i: nat, a: string, b: string)
    requires v.Array? && i <= |v.items|
    ensures ItemsThen(v, i, a + b) == ItemsThen(v, i, a) + b
    decreases v, 0, |v.items| - i, 1
  {
    if i < |v.items| {
      AfterItemAppends(v, i, a, b);
      CanonicalAppends(v.items[i], AfterItem(v, i, a), b);
    }
  }

  lemma {:induction false} AfterItemAppends(v: Value, i: nat, a: string, b: string)
    requires v.Array? && i < |v.items|
    ensures AfterItem(v, i, a + b) == AfterItem(v, i, a) + b
    decreases v, 0, |v.items| - i, 0
  {
    ItemsAppend(v, i + 1, a, b);
    assert "," + (ItemsThen(v, i + 1, a) + b) == ("," + ItemsThen(v, i + 1, a)) + b;
  }

  lemma {:induction false} MembersAppend(v: Value, keys: seq<string>, i: nat, a: string, b: string)
    requires i <= |keys| && KeysOf(v, keys)
    ensures MembersThen(v, keys, i, a + b) == MembersThen(v, keys, i, a) + b
    decreases v, 0, |keys| - i, 1
  {
    if i < |keys| {
      AfterMemberAppends(v, keys, i, a, b);
      var x := AfterMember(v, keys, i, a);
      CanonicalAppends(v.fields[keys[i]], x, b);
      MemberAppends(keys[i], CanonicalThen(v.fields[keys[i]], x), b);
    }
  }

  lemma {:induction false} AfterMemberAppends(v: Value, keys: seq<string>, i: nat, a: string, b: string)
    requires i < |keys| && KeysOf(v, keys)
    ensures AfterMember(v, keys, i, a + b) == AfterMember(v, keys, i, a) + b
    decreases v, 0, |keys| - i, 0
  {
    MembersAppend(v, keys, i + 1, a, b);
    assert "," + (MembersThen(v, keys, i + 1, a) + b) == ("," + MembersThen(v, keys, i + 1, a)) + b;
  }

  lemma MemberAppends(key: string, value: string, b: string)
    ensures QuotedThen(key, ":" + (value + b)) == QuotedThen(key, ":" + value) + b
  {
    QuotedAppends(key, ":" + value, b);
    assert ":" + (value + b) == (":" + value) + b;
  }

  /** The keys of a map in some order, each once: what iterating over it gives. */
  method Enumerate(keys: set<string>) returns (listing: seq<string>)
    ensures Elements(listing) == keys
    ensures forall i, j :: 0 <= i < j < |listing| ==> listing[i] != listing[j]
  {
    listing := [];
    var todo := keys;
    while todo != {}
      invariant todo <= keys && Elements(listing) == keys - todo
      invariant forall i, j :: 0 <= i < j < |listing| ==> listing[i] != listing[j]
      decreases todo
    {
      var key :| key in todo;
      assert key !in Elements(listing);
      assert Elements(listing + [key]) == Elements(listing) + {key};
      listing := listing + [key];
      todo := todo - {key};
    }
  }

  /** Appends the encoding to the buffer, whatever order the map lists its keys in. */
  method WriteCanonicalJson(value: Value, out: string) returns (r: string)
    ensures r == out + Canonical(value)
    decreases value, 2
  {
    match value {
      case Object(_) =>
        r := WriteObject(value, out);
      case Array(_) =>
        r := WriteArray(value, out);
      case String(text) =>
        r := out + QuotedThen(text, "");
      case Number(n) =>
        r := out + Numeral(n);
        assert Numeral(n) + "" == Numeral(n);
      case Bool(flag) =>
        r := out + if flag then "true" else "false";
        assert (if flag then "true" else "false") + "" == if flag then "true" else "false";
      case Null =>
        r := out + "null";
        assert "null" + "" == "null";
    }
  }

  /** What is still to be written before item i, with the comma that is due. */
  ghost function PendingItems(v: Value, i: nat): string
    requires v.Array? && i <= |v.items|
  {
    (if 0 < i < |v.items| then "," else "") + ItemsThen(v, i, "]")
  }

  lemma Regroup(a: string, b: string, c: string, d: string)
    ensures a + (b + (c + d)) == a + b + c + d
  {
  }

  lemma ItemSplits(v: Value, i: nat)
    requires v.Array? && i < |v.items|
    ensures ItemsThen(v, i, "]") == Canonical(v.items[i]) + PendingItems(v, i + 1)
  {
    var rest := PendingItems(v, i + 1);
    assert "" + ItemsThen(v, i + 1, "]") == ItemsThen(v, i + 1, "]");
    CanonicalAppends(v.items[i], "", rest);
    assert "" + rest == rest;
  }

  lemma ItemStep(v: Value, i: nat, out: string)
    requires v.Array? && i < |v.items|
    ensures out + PendingItems(v, i) == out + (if i > 0 then "," else "") + Canonical(v.items[i]) + PendingItems(v, i + 1)
  {
    ItemSplits(v, i);
    Regroup(out, if i > 0 then "," else "", Canonical(v.items[i]), PendingItems(v, i + 1));
  }

  method WriteArray(value: Value, out: string) returns (r: string)
    requires value.Array?
    ensures r == out + Canonical(value)
    decreases value, 0
  {
    r := out + "[";
    assert out + Canonical(value) == r + PendingItems(value, 0) by {
      assert "]" + "" == "]" && "" + ItemsThen(value, 0, "]") == ItemsThen(value, 0, "]");
    }
    for i := 0 to |value.items|
      invariant out + Canonical(value) == r + PendingItems(value, i)
    {
      ItemStep(value, i, r);
      if i > 0 {
        r := r + ",";
      } else {
        assert r + "" == r;
      }
      r := WriteCanonicalJson(value.items[i], r);
    }
    assert PendingItems(value, |value.items|) == "]";
    r := r + "]";
  }

  ghost function PendingMembers(v: Value, keys: seq<string>, i: nat): string
    requires i <= |keys| && KeysOf(v, keys)
  {
    (if 0 < i < |keys| then "," else "") + MembersThen(v, keys, i, "}")
  }

  lemma MemberSplits(value: Value, key: string, rest: string)
    ensures QuotedThen(key, ":" + CanonicalThen(value, rest)) == QuotedThen(key, "") + ":" + Canonical(value) + rest
  {
    CanonicalAppends(value, "", rest);
    assert "" + rest == rest;
    var colon := ":" + CanonicalThen(value, rest);
    assert "" + colon == colon;
    QuotedAppends(key, "", colon);
    Regroup(QuotedThen(key, ""), ":", Canonical(value), rest);
  }

  lemma NextMemberSplits(v: Value, keys: seq<string>, i: nat)
    requires i < |keys| && KeysOf(v, keys)
    ensures MembersThen(v, keys, i, "}")
         == QuotedThen(keys[i], "") + ":" + Canonical(v.fields[keys[i]]) + PendingMembers(v, keys, i + 1)
  {
    assert "" + MembersThen(v, keys, i + 1, "}") == MembersThen(v, keys, i + 1, "}");
    MemberSplits(v.fields[keys[i]], keys[i], PendingMembers(v, keys, i + 1));
  }

  lemma MemberStep(v: Value, keys: seq<string>, i: nat, out: string)
    requires i < |keys| && KeysOf(v, keys)
    ensures out + PendingMembers(v, keys, i)
         == out + (if i > 0 then "," else "") + QuotedThen(keys[i], "") + ":" + Canonical(v.fields[keys[i]]) + PendingMembers(v, keys, i + 1)
  {
    var comma := if i > 0 then "," else "";
    var key, value, rest := QuotedThen(keys[i], ""), Canonical(v.fields[keys[i]]), PendingMembers(v, keys, i + 1);
    NextMemberSplits(v, keys, i);
    Regroup(out, comma, key + ":" + value, rest);
  }

  method WriteObject(value: Value, out: string) returns (r: string)
    requires value.Object?
    ensures r == out + Canonical(value)
    decreases value, 1
  {
    var listing := Enumerate(value.fields.Keys);
    var keys := SortNames(listing);
    SortedIsUnique(keys, SortedKeys(value.fields.Keys));
    forall i | 0 <= i < |keys| ensures keys[i] in value.fields {
      assert keys[i] in Elements(keys);
    }
    r := WriteMembers(value, keys, out + "{");
    MembersOfObject(value, keys);
    Reassociate(out, "{", PendingMembers(value, keys, 0));
  }

  lemma MembersOfObject(value: Value, keys: seq<string>)
    requires value.Object? && keys == SortedKeys(value.fields.Keys) && KeysOf(value, keys)
    ensures Canonical(value) == "{" + PendingMembers(value, keys, 0)
  {
    assert "}" + "" == "}" && "" + MembersThen(value, keys, 0, "}") == MembersThen(value, keys, 0, "}");
  }

  lemma Reassociate(a: string, b: string, c: string)
    ensures a + b + c == a + (b + c)
  {
  }

  method WriteMembers(value: Value, keys: seq<string>, out: string) returns (r: string)
    requires KeysOf(value, keys)
    ensures r == out + PendingMembers(value, keys, 0)
    decreases value, 0
  {
    r := out;
    ghost var all := out + PendingMembers(value, keys, 0);
    for i := 0 to |keys|
      invariant all == r + PendingMembers(value, keys, i)
    {
      MemberStep(value, keys, i, r);
      if i > 0 {
        r := r + ",";
      } else {
        assert r + "" == r;
      }
      r := r + QuotedThen(keys[i], "");
      r := r + ":";
      r := WriteCanonicalJson(value.fields[keys[i]], r);
    }
    assert PendingMembers(value, keys, |keys|) == "}";
    r := r + "}";
  }

  // ---------------------------------------------------------------- manifests

  datatype ReleaseArtifact = ReleaseArtifact(version: string, sha256: string, url: Option<string>)

  datatype CompatibilityRange = CompatibilityRange(min: Option<string>, max: Option<string>)

  datatype ReleaseManifest = ReleaseManifest(
    schema: nat, sbctl: ReleaseArtifact, singBox: ReleaseArtifact,
    compatibility: seq<CompatibilityRange>, signature: Option<string>)

  function OptionalText(o: Option<string>): Value { if o.Some? then String(o.value) else Null }

  function ArtifactValue(a: ReleaseArtifact): Value {
    Object(map["version" := String(a.version), "sha256" := String(a.sha256), "url" := OptionalText(a.url)])
  }

  function RangeValue(r: CompatibilityRange): Value {
    Object(map["min" := OptionalText(r.min), "max" := OptionalText(r.max)])
  }

  /** Serialization leaves the signature out. */
  function ManifestValue(m: ReleaseManifest): Value {
    Object(map["schema" := Number(m.schema), "sbctl" := ArtifactValue(m.sbctl), "sing_box" := ArtifactValue(m.singBox),
               "sing_box_compatibility" := Array(seq(|m.compatibility|, i requires 0 <= i < |m.compatibility| => RangeValue(m.compatibility[i])))])
  }

  ghost function CanonicalBytes(m: ReleaseManifest): string { Canonical(ManifestValue(m)) }

  lemma ArtifactValueIsInjective(a: ReleaseArtifact, b: ReleaseArtifact)
    requires ArtifactValue(a) == ArtifactValue(b)
    ensures a == b
  {
    var f, g := ArtifactValue(a).fields, ArtifactValue(b).fields;
    assert f["version"] == g["version"] && f["sha256"] == g["sha256"] && f["url"] == g["url"];
  }

  lemma RangeValueIsInjective(a: CompatibilityRange, b: CompatibilityRange)
    requires RangeValue(a) == RangeValue(b)
    ensures a == b
  {
    var f, g := RangeValue(a).fields, RangeValue(b).fields;
    assert f["min"] == g["min"] && f["max"] == g["max"];
  }

  /** The signed bytes of two manifests are equal exactly when they differ at most in their signature. */
  lemma SignedBytesDetermineTheManifest(a: ReleaseManifest, b: ReleaseManifest)
    ensures CanonicalBytes(a) == CanonicalBytes(b) <==> a.(signature := None) == b.(signature := None)
  {
    assert ManifestValue(a) == ManifestValue(a.(signature := None));
    assert ManifestValue(b) == ManifestValue(b.(signature := None));
    if CanonicalBytes(a) == CanonicalBytes(b) {
      CanonicalIsInjective(ManifestValue(a), ManifestValue(b));
      var f, g := ManifestValue(a).fields, ManifestValue(b).fields;
      assert f["schema"] == g["schema"];
      assert f["sbctl"] == g["sbctl"] && f["sing_box"] == g["sing_box"];
      ArtifactValueIsInjective(a.sbctl, b.sbctl);
      ArtifactValueIsInjective(a.singBox, b.singBox);
      assert f["sing_box_compatibility"] == g["sing_box_compatibility"];
      forall i | 0 <= i < |a.compatibility| ensures i < |b.compatibility| && a.compatibility[i] == b.compatibility[i] {
        assert f["sing_box_compatibility"].items[i] == g["sing_box_compatibility"].items[i];
        RangeValueIsInjective(a.compatibility[i], b.compatibility[i]);
      }
      assert |f["sing_box_compatibility"].items| == |a.compatibility| && |g["sing_box_compatibility"].items| == |b.compatibility|;
      assert a.compatibility == b.compatibility;
    }
  }
}
