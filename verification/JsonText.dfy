/**
  The texts of a JSON value (RFC 8259): members in any order, whitespace between
  any two tokens, any escape for any character. The canonical encoding is one of
  them.

  A document records how its text is written; spelled out it gives tokens, and
  tokens laid out with whitespace give the text. Numbers with a fraction or an
  exponent have texts but no value.
 */
module JsonText {
  import opened Wrappers
  import opened Json
  import opened Text
  import Release

  /** A text without its whitespace: number parts and string bodies as they are spelled. */
  datatype Doc =
    | Nil
    | Flag(flag: bool)
    | Num(negative: bool, whole: string, fraction: Option<string>, exponent: Option<(string, string)>)
    | Quoted(body: string)
    | List(items: seq<Doc>)
    | Dict(members: seq<(string, Doc)>)

  // ---------------------------------------------------------------- spelling

  function NumberText(d: Doc): string
    requires d.Num?
  {
    (if d.negative then "-" else "") + d.whole
    + (if d.fraction.Some? then "." + d.fraction.value else "")
    + (if d.exponent.Some? then d.exponent.value.0 + d.exponent.value.1 else "")
  }

  function QuotedText(body: string): string { "\"" + body + "\"" }

  function Tokens(d: Doc): seq<string>
    decreases d, 1, 0
  {
    match d
    case Nil => ["null"]
    case Flag(flag) => [if flag then "true" else "false"]
    case Num(_, _, _, _) => [NumberText(d)]
    case Quoted(body) => [QuotedText(body)]
    case List(_) => ["["] + ItemTokens(d, 0) + ["]"]
    case Dict(_) => ["{"] + MemberTokens(d, 0) + ["}"]
  }

  /** The items from index i on. */
  function ItemTokens(d: Doc, i: nat): seq<string>
    requires d.List? && i <= |d.items|
    decreases d, 0, |d.items| - i
  {
    if i == |d.items| then []
    else if i + 1 == |d.items| then Tokens(d.items[i])
    else Tokens(d.items[i]) + ([","] + ItemTokens(d, i + 1))
  }

  function MemberTokens(d: Doc, i: nat): seq<string>
    requires d.Dict? && i <= |d.members|
    decreases d, 0, |d.members| - i
  {
    if i == |d.members| then []
    else
      var member := [QuotedText(d.members[i].0), ":"] + Tokens(d.members[i].1);
      if i + 1 == |d.members| then member else member + ([","] + MemberTokens(d, i + 1))
  }

  predicate IsSpace(s: string) {
    forall c :: c in s ==> c == ' ' || c == '\t' || c == '\n' || c == '\r'
  }

  predicate Spacing(spaces: seq<string>, tokens: seq<string>) {
    |spaces| == |tokens| && forall i :: 0 <= i < |spaces| ==> IsSpace(spaces[i])
  }

  /** The tokens, each after its whitespace, followed by a text. */
  function Laid(tokens: seq<string>, spaces: seq<string>, rest: string): string
    requires |spaces| == |tokens|
  {
    if tokens == [] then rest else spaces[0] + (tokens[0] + Laid(tokens[1..], spaces[1..], rest))
  }

  // ---------------------------------------------------------------- meaning

  function HexDigit(c: char): Option<nat> {
    if '0' <= c <= '9' then Some(c as int - '0' as int)
    else if 'a' <= c <= 'f' then Some(c as int - 'a' as int + 10)
    else if 'A' <= c <= 'F' then Some(c as int - 'A' as int + 10)
    else None
  }

  /** The number of the four hexadecimal digits a text starts with. */
  function FourHex(s: string): (r: Option<nat>)
    ensures r.Some? ==> |s| >= 4 && r.value < 0x10000
  {
    if |s| >= 4 && HexDigit(s[0]).Some? && HexDigit(s[1]).Some? && HexDigit(s[2]).Some? && HexDigit(s[3]).Some?
    then Some(((HexDigit(s[0]).value * 16 + HexDigit(s[1]).value) * 16 + HexDigit(s[2]).value) * 16 + HexDigit(s[3]).value)
    else None
  }

  function Cons(c: char, s: Option<string>): Option<string> { if s.Some? then Some([c] + s.value) else None }

  /** What `\uXXXX` stands for, and its length: a pair of surrogates is one character, a lone one none. */
  function UnicodeEscape(body: string): (r: Option<(char, nat)>)
    ensures r.Some? ==> 6 <= r.value.1 <= |body|
  {
    if |body| < 6 || FourHex(body[2..]).None? then None
    else
      var high := FourHex(body[2..]).value;
      if 0xDC00 <= high < 0xE000 then None
      else if 0xD800 <= high < 0xDC00 then
        if |body| < 12 || body[6] != '\\' || body[7] != 'u' || FourHex(body[8..]).None? then None
        else
          var low := FourHex(body[8..]).value;
          if 0xDC00 <= low < 0xE000 then Some(((0x10000 + (high - 0xD800) * 0x400 + (low - 0xDC00)) as char, 12)) else None
      else Some((high as char, 6))
  }

  function ShortEscape(c: char): Option<char> {
    if c == '\"' || c == '\\' || c == '/' then Some(c)
    else if c == 'b' then Some(0x08 as char)
    else if c == 'f' then Some(0x0C as char)
    else if c == 'n' then Some('\n')
    else if c == 'r' then Some('\r')
    else if c == 't' then Some('\t')
    else None
  }

  /** The string a body stands for, if it is well-formed (section 7 of RFC 8259). */
  function Unescaped(body: string): Option<string>
    decreases |body|
  {
    if body == [] then Some([])
    else if body[0] == '\"' || body[0] as int < 0x20 then None
    else if body[0] != '\\' then Cons(body[0], Unescaped(body[1..]))
    else if |body| == 1 then None
    else if body[1] == 'u' then
      match UnicodeEscape(body)
      case None => None
      case Some((c, length)) => Cons(c, Unescaped(body[length..]))
    else
      match ShortEscape(body[1])
      case None => None
      case Some(c) => Cons(c, Unescaped(body[2..]))
  }

  predicate ValidNumber(d: Doc)
    requires d.Num?
  {
    && d.whole != [] && AllDigits(d.whole) && (d.whole[0] == '0' ==> |d.whole| == 1)
    && (d.fraction.Some? ==> d.fraction.value != [] && AllDigits(d.fraction.value))
    && (d.exponent.Some? ==>
          && d.exponent.value.0 in {"e", "E", "e+", "E+", "e-", "E-"}
          && d.exponent.value.1 != [] && AllDigits(d.exponent.value.1))
  }

  /** The grammar. */
  predicate Valid(d: Doc) {
    match d
    case Num(_, _, _, _) => ValidNumber(d)
    case Quoted(body) => Unescaped(body).Some?
    case List(items) => forall i :: 0 <= i < |items| ==> Valid(items[i])
    case Dict(members) => forall i :: 0 <= i < |members| ==> Unescaped(members[i].0).Some? && Valid(members[i].1)
    case _ => true
  }

  /** The value of a text whose numbers are integers; a later member wins over an earlier one of its name. */
  function ValueOf(d: Doc): Option<Value>
    decreases d, 1, 0
  {
    match d
    case Nil => Some(Null)
    case Flag(flag) => Some(Bool(flag))
    case Num(negative, whole, fraction, exponent) =>
      if !ValidNumber(d) || fraction.Some? || exponent.Some? || (negative && whole == "0") then None
      else Some(Number(if negative then 0 - DecimalValue(whole) else DecimalValue(whole)))
    case Quoted(body) => if Unescaped(body).Some? then Some(String(Unescaped(body).value)) else None
    case List(items) =>
      var values := ItemsOf(d, |items|);
      if values.Some? then Some(Array(values.value)) else None
    case Dict(members) =>
      var fields := FieldsOf(d, |members|);
      if fields.Some? then Some(Object(fields.value)) else None
  }

  /** The values of the first n items. */
  function ItemsOf(d: Doc, n: nat): (r: Option<seq<Value>>)
    requires d.List? && n <= |d.items|
    ensures r.Some? ==> |r.value| == n
    decreases d, 0, n
  {
    if n == 0 then Some([])
    else
      var (before, last) := (ItemsOf(d, n - 1), ValueOf(d.items[n - 1]));
      if before.Some? && last.Some? then Some(before.value + [last.value]) else None
  }

  function FieldsOf(d: Doc, n: nat): Option<map<string, Value>>
    requires d.Dict? && n <= |d.members|
    decreases d, 0, n
  {
    if n == 0 then Some(map[])
    else
      var (before, key, last) := (FieldsOf(d, n - 1), Unescaped(d.members[n - 1].0), ValueOf(d.members[n - 1].1));
      if before.Some? && key.Some? && last.Some? then Some(before.value[key.value := last.value]) else None
  }

  /** Whatever has a value follows the grammar. */
  lemma {:induction false} ValuesAreOfValidTexts(d: Doc)
    requires ValueOf(d).Some?
    ensures Valid(d)
    decreases d, 1, 0
  {
    if d.List? {
      ItemsAreOfValidTexts(d, |d.items|);
    } else if d.Dict? {
      FieldsAreOfValidTexts(d, |d.members|);
    }
  }

  lemma {:induction false} ItemsAreOfValidTexts(d: Doc, n: nat)
    requires d.List? && n <= |d.items| && ItemsOf(d, n).Some?
    ensures forall i :: 0 <= i < n ==> Valid(d.items[i])
    decreases d, 0, n
  {
    if n > 0 {
      ItemsAreOfValidTexts(d, n - 1);
      ValuesAreOfValidTexts(d.items[n - 1]);
    }
  }

  lemma {:induction false} FieldsAreOfValidTexts(d: Doc, n: nat)
    requires d.Dict? && n <= |d.members| && FieldsOf(d, n).Some?
    ensures forall i :: 0 <= i < n ==> Unescaped(d.members[i].0).Some? && Valid(d.members[i].1)
    decreases d, 0, n
  {
    if n > 0 {
      FieldsAreOfValidTexts(d, n - 1);
      ValuesAreOfValidTexts(d.members[n - 1].1);
    }
  }

  // ---------------------------------------------------------------- laying out

  lemma {:induction false} LaidConcat(a: seq<string>, b: seq<string>, spaces: seq<string>, rest: string)
    requires |spaces| == |a| + |b|
    ensures Laid(a + b, spaces, rest) == Laid(a, spaces[..|a|], Laid(b, spaces[|a|..], rest))
    decreases |a|
  {
    if a == [] {
      assert a + b == b && spaces[|a|..] == spaces;
    } else {
      assert (a + b)[1..] == a[1..] + b;
      assert spaces[1..][..|a| - 1] == spaces[..|a|][1..] && spaces[1..][|a| - 1..] == spaces[|a|..];
      LaidConcat(a[1..], b, spaces[1..], rest);
    }
  }

  /** No whitespace at all. */
  function NoSpaces(n: nat): (spaces: seq<string>)
    ensures |spaces| == n && forall i :: 0 <= i < n ==> spaces[i] == []
  {
    seq(n, i => [])
  }

  function Compact(tokens: seq<string>, rest: string): string { Laid(tokens, NoSpaces(|tokens|), rest) }

  lemma NoSpacesAreAlike(spaces: seq<string>)
    requires forall i :: 0 <= i < |spaces| ==> spaces[i] == []
    ensures spaces == NoSpaces(|spaces|)
  {
  }

  lemma CompactConcat(a: seq<string>, b: seq<string>, rest: string)
    ensures Compact(a + b, rest) == Compact(a, Compact(b, rest))
  {
    var spaces := NoSpaces(|a| + |b|);
    LaidConcat(a, b, spaces, rest);
    NoSpacesAreAlike(spaces[..|a|]);
    NoSpacesAreAlike(spaces[|a|..]);
  }

  lemma CompactOne(token: string, rest: string)
    ensures Compact([token], rest) == token + rest
  {
    assert [token][1..] == [] && NoSpaces(1)[1..] == [];
    assert Laid([], [], rest) == rest;
    assert [] + (token + rest) == token + rest;
  }

  // ---------------------------------------------------------------- the canonical text

  function Escaped(s: string): string { Release.EscapedThen(s, "") }

  lemma ShortEscapeIsRead(c: char, rest: string)
    requires Release.Escape(c)[0] == '\\' && |Release.Escape(c)| == 2
    ensures Unescaped(Release.Escape(c) + rest) == Cons(c, Unescaped(rest))
  {
    var body := Release.Escape(c) + rest;
    assert body[1] == Release.Escape(c)[1] && body[2..] == rest;
    assert ShortEscape(body[1]) == Some(c);
  }

  lemma HexCharIsRead(n: nat)
    requires n < 16
    ensures HexDigit(Release.HexChar(n)) == Some(n)
  {
  }

  lemma ControlIsRead(c: char, rest: string)
    requires |Release.Escape(c)| == 6
    ensures Unescaped(Release.Escape(c) + rest) == Cons(c, Unescaped(rest))
  {
    var body := Release.Escape(c) + rest;
    var n := c as int;
    assert body[..6] == Release.Escape(c) && body[6..] == rest;
    assert body[0] == '\\' && body[1] == 'u';
    HexCharIsRead(n / 16);
    HexCharIsRead(n % 16);
    assert body[2..][0] == body[2] == '0' && body[2..][1] == body[3] == '0';
    assert body[2..][2] == body[4] == Release.HexChar(n / 16) && body[2..][3] == body[5] == Release.HexChar(n % 16);
    assert FourHex(body[2..]) == Some(n);
    assert UnicodeEscape(body) == Some((c, 6));
  }

  lemma EscapeIsRead(c: char, rest: string)
    ensures Unescaped(Release.Escape(c) + rest) == Cons(c, Unescaped(rest))
  {
    Release.EscapeLength(c);
    if |Release.Escape(c)| == 6 {
      ControlIsRead(c, rest);
    } else if |Release.Escape(c)| == 2 {
      ShortEscapeIsRead(c, rest);
    } else {
      assert ([c] + rest)[1..] == rest;
    }
  }

  /** Reading an escaped string back gives the string. */
  lemma {:induction false} EscapedReadsBack(s: string)
    ensures Unescaped(Escaped(s)) == Some(s)
    decreases |s|
  {
    if s != [] {
      EscapeIsRead(s[0], Escaped(s[1..]));
      EscapedReadsBack(s[1..]);
      assert s == [s[0]] + s[1..];
    }
  }

  lemma KeysAreFields(fields: map<string, Value>)
    ensures forall i :: 0 <= i < |Release.SortedKeys(fields.Keys)| ==> Release.SortedKeys(fields.Keys)[i] in fields
  {
    var keys := Release.SortedKeys(fields.Keys);
    forall i | 0 <= i < |keys| ensures keys[i] in fields {
      assert keys[i] in Elements(keys);
    }
  }

  /** The text the canonical encoding chooses. */
  ghost function CanonicalDoc(v: Value): Doc
    decreases v
  {
    match v
    case Null => Nil
    case Bool(flag) => Flag(flag)
    case Number(n) => Num(n < 0, Decimal(if n < 0 then -n else n), None, None)
    case String(text) => Quoted(Escaped(text))
    case Array(items) => List(seq(|items|, i requires 0 <= i < |items| => CanonicalDoc(items[i])))
    case Object(fields) =>
      KeysAreFields(fields);
      var keys := Release.SortedKeys(fields.Keys);
      Dict(seq(|keys|, i requires 0 <= i < |keys| => (Escaped(keys[i]), CanonicalDoc(fields[keys[i]]))))
  }

  lemma QuotedAsIs(s: string, rest: string)
    ensures Compact([QuotedText(Escaped(s))], rest) == Release.QuotedThen(s, rest)
  {
    CompactOne(QuotedText(Escaped(s)), rest);
    Release.EscapedAppends(s, "", "\"" + rest);
    assert "" + ("\"" + rest) == "\"" + rest;
    assert QuotedText(Escaped(s)) + rest == "\"" + (Escaped(s) + ("\"" + rest));
  }

  lemma CompactBracketed(open: string, inside: seq<string>, close: string, rest: string)
    ensures Compact([open] + inside + [close], rest) == open + Compact(inside, close + rest)
  {
    CompactConcat([open] + inside, [close], rest);
    CompactConcat([open], inside, Compact([close], rest));
    CompactOne(close, rest);
    CompactOne(open, Compact(inside, close + rest));
  }

  /** The canonical encoding spells its text without whitespace. */
  lemma {:induction false} CanonicalIsCompact(v: Value, rest: string)
    ensures Compact(Tokens(CanonicalDoc(v)), rest) == Release.CanonicalThen(v, rest)
    decreases v, 2, 0
  {
    match v {
      case Null => CompactOne("null", rest);
      case Bool(flag) => CompactOne(if flag then "true" else "false", rest);
      case Number(n) =>
        NumeralAsIs(n);
        CompactOne(Release.Numeral(n), rest);
      case String(text) => QuotedAsIs(text, rest);
      case Array(items) =>
        CompactBracketed("[", ItemTokens(CanonicalDoc(v), 0), "]", rest);
        ItemsAreCompact(v, 0, "]" + rest);
      case Object(fields) =>
        CompactBracketed("{", MemberTokens(CanonicalDoc(v), 0), "}", rest);
        KeysAreFields(fields);
        MembersAreCompact(v, Release.SortedKeys(fields.Keys), 0, "}" + rest);
    }
  }

  lemma NumeralAsIs(n: int)
    ensures NumberText(CanonicalDoc(Number(n))) == Release.Numeral(n)
  {
  }

  lemma {:induction false} ItemsAreCompact(v: Value, i: nat, rest: string)
    requires v.Array? && i <= |v.items|
    ensures Compact(ItemTokens(CanonicalDoc(v), i), rest) == Release.ItemsThen(v, i, rest)
    decreases v, 1, |v.items| - i
  {
    var d := CanonicalDoc(v);
    if i + 1 < |v.items| {
      ItemsAreCompact(v, i + 1, rest);
      CommaThen(Tokens(d.items[i]), ItemTokens(d, i + 1), rest);
      CanonicalIsCompact(v.items[i], "," + Release.ItemsThen(v, i + 1, rest));
    } else if i < |v.items| {
      CanonicalIsCompact(v.items[i], rest);
    }
  }

  lemma CommaThen(a: seq<string>, b: seq<string>, rest: string)
    ensures Compact(a + ([","] + b), rest) == Compact(a, "," + Compact(b, rest))
  {
    CompactConcat(a, [","] + b, rest);
    CompactConcat([","], b, rest);
    CompactOne(",", Compact(b, rest));
  }

  lemma {:induction false} MembersAreCompact(v: Value, keys: seq<string>, i: nat, rest: string)
    requires v.Object? && keys == Release.SortedKeys(v.fields.Keys) && i <= |keys| && Release.KeysOf(v, keys)
    ensures Compact(MemberTokens(CanonicalDoc(v), i), rest) == Release.MembersThen(v, keys, i, rest)
    decreases v, 1, |keys| - i
  {
    var d := CanonicalDoc(v);
    if i < |keys| {
      var after := Release.AfterMember(v, keys, i, rest);
      CanonicalIsCompact(v.fields[keys[i]], after);
      MemberIsCompact(keys[i], Tokens(d.members[i].1), after);
      if i + 1 < |keys| {
        MembersAreCompact(v, keys, i + 1, rest);
        CommaThen([QuotedText(d.members[i].0), ":"] + Tokens(d.members[i].1), MemberTokens(d, i + 1), rest);
      }
    }
  }

  lemma MemberIsCompact(key: string, value: seq<string>, rest: string)
    ensures Compact([QuotedText(Escaped(key)), ":"] + value, rest) == Release.QuotedThen(key, ":" + Compact(value, rest))
  {
    assert [QuotedText(Escaped(key)), ":"] + value == [QuotedText(Escaped(key))] + ([":"] + value);
    CompactConcat([QuotedText(Escaped(key))], [":"] + value, rest);
    CompactConcat([":"], value, rest);
    CompactOne(":", Compact(value, rest));
    QuotedAsIs(key, ":" + Compact(value, rest));
  }

  /** And that text has the encoded value. */
  lemma {:induction false} CanonicalHasItsValue(v: Value)
    ensures ValueOf(CanonicalDoc(v)) == Some(v)
    decreases v, 2, 0
  {
    match v {
      case Number(n) => NumeralHasItsValue(n);
      case String(text) => EscapedReadsBack(text);
      case Array(items) =>
        CanonicalItems(v, |items|);
        assert items[..|items|] == items;
      case Object(fields) => ObjectHasItsValue(v);
      case _ =>
    }
  }

  lemma NumeralHasItsValue(n: int)
    ensures ValueOf(CanonicalDoc(Number(n))) == Some(Number(n))
  {
    DecimalRoundTrip(if n < 0 then -n else n);
    NoLeadingZero(if n < 0 then -n else n);
  }

  lemma ObjectHasItsValue(v: Value)
    requires v.Object?
    ensures ValueOf(CanonicalDoc(v)) == Some(v)
    decreases v, 1, 0
  {
    KeysAreFields(v.fields);
    var keys := Release.SortedKeys(v.fields.Keys);
    CanonicalFields(v, keys, |keys|);
    assert keys[..|keys|] == keys;
    AllFields(v.fields, keys);
  }

  lemma {:induction false} NoLeadingZero(n: nat)
    ensures Decimal(n)[0] == '0' ==> n == 0 && Decimal(n) == "0"
  {
    if n >= 10 {
      NoLeadingZero(n / 10);
      assert Decimal(n)[0] == Decimal(n / 10)[0];
    }
  }

  lemma {:induction false} CanonicalItems(v: Value, n: nat)
    requires v.Array? && n <= |v.items|
    ensures ItemsOf(CanonicalDoc(v), n) == Some(v.items[..n])
    decreases v, 0, n
  {
    if n > 0 {
      CanonicalItems(v, n - 1);
      CanonicalHasItsValue(v.items[n - 1]);
      assert v.items[..n] == v.items[..n - 1] + [v.items[n - 1]];
    }
  }

  /** The fields of some of the keys. */
  function FieldsAt(fields: map<string, Value>, keys: seq<string>): map<string, Value> {
    map key | key in fields && key in keys :: fields[key]
  }

  lemma AllFields(fields: map<string, Value>, keys: seq<string>)
    requires Elements(keys) == fields.Keys
    ensures FieldsAt(fields, keys) == fields
  {
    assert forall key :: key in fields ==> key in Elements(keys);
  }

  lemma {:induction false} CanonicalFields(v: Value, keys: seq<string>, n: nat)
    requires v.Object? && keys == Release.SortedKeys(v.fields.Keys) && n <= |keys| && Release.KeysOf(v, keys)
    ensures FieldsOf(CanonicalDoc(v), n) == Some(FieldsAt(v.fields, keys[..n]))
    decreases v, 0, n
  {
    if n > 0 {
      CanonicalFields(v, keys, n - 1);
      var key := keys[n - 1];
      EscapedReadsBack(key);
      CanonicalHasItsValue(v.fields[key]);
      assert keys[..n] == keys[..n - 1] + [key];
      OneFieldMore(v.fields, keys[..n - 1], key);
      CanonicalMember(v, keys, n - 1);
      FieldsOfOneMore(CanonicalDoc(v), n, FieldsAt(v.fields, keys[..n - 1]), key, v.fields[key]);
    } else {
      assert FieldsAt(v.fields, keys[..0]) == map[];
    }
  }

  lemma CanonicalMember(v: Value, keys: seq<string>, i: nat)
    requires v.Object? && keys == Release.SortedKeys(v.fields.Keys) && i < |keys| && Release.KeysOf(v, keys)
    ensures CanonicalDoc(v).Dict? && |CanonicalDoc(v).members| == |keys|
    ensures CanonicalDoc(v).members[i] == (Escaped(keys[i]), CanonicalDoc(v.fields[keys[i]]))
  {
  }

  lemma FieldsOfOneMore(d: Doc, n: nat, before: map<string, Value>, key: string, last: Value)
    requires d.Dict? && 0 < n <= |d.members|
    requires FieldsOf(d, n - 1) == Some(before)
    requires Unescaped(d.members[n - 1].0) == Some(key) && ValueOf(d.members[n - 1].1) == Some(last)
    ensures FieldsOf(d, n) == Some(before[key := last])
  {
  }

  lemma OneFieldMore(fields: map<string, Value>, keys: seq<string>, key: string)
    requires key in fields
    ensures FieldsAt(fields, keys + [key]) == FieldsAt(fields, keys)[key := fields[key]]
  {
  }

  /** Hence the canonical encoding of a value is a text of that value. */
  lemma CanonicalIsATextOfItsValue(v: Value)
    ensures ValueOf(CanonicalDoc(v)) == Some(v)
    ensures Laid(Tokens(CanonicalDoc(v)), NoSpaces(|Tokens(CanonicalDoc(v))|), "") == Release.Canonical(v)
  {
    CanonicalHasItsValue(v);
    CanonicalIsCompact(v, "");
  }
}
