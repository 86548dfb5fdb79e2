/**
  The brace scanner that cuts complete JSON objects out of a partial stream. The
  JSON parser itself is a parameter.
 */
module JsonStream {
  import opened Wrappers
  import opened Json
  import JsonReading
  import JsonText
  import Text
  import Release

  type Parser<!V> = string -> Option<V>

  function FindOpen(text: string): (r: Option<nat>)
    ensures r.Some? ==> r.value < |text| && text[r.value] == '{'
    ensures forall i :: 0 <= i < (if r.Some? then r.value else |text|) ==> text[i] != '{'
  {
    if text == [] then None
    else if text[0] == '{' then Some(0)
    else
      match FindOpen(text[1..])
      case None => None
      case Some(i) => Some(i + 1)
  }

  function Plus(n: nat, o: Option<nat>): Option<nat> { if o.Some? then Some(n + o.value) else None }

  /**
    How much of the text, read at this brace depth, is needed for the depth to
    fall back to zero. The precondition is what keeps the depth from underflowing.
   */
  function ObjectLength(text: string, depth: nat): (r: Option<nat>)
    requires depth > 0 || (text != [] && text[0] == '{')
    ensures r.Some? ==> 0 < r.value <= |text|
    decreases |text|
  {
    if text == [] then None
    else if text[0] == '}' then if depth == 1 then Some(1) else Plus(1, ObjectLength(text[1..], depth - 1))
    else Plus(1, ObjectLength(text[1..], if text[0] == '{' then depth + 1 else depth))
  }

  /** Where the first complete object starts and ends. */
  function FirstObject(text: string): (r: Option<(nat, nat)>)
    ensures r.Some? ==> r.value.0 < r.value.1 <= |text|
  {
    match FindOpen(text)
    case None => None
    case Some(start) =>
      match ObjectLength(text[start..], 0)
      case None => None
      case Some(length) => Some((start, start + length))
  }

  function Parsed<V>(text: string, parse: Parser<V>): seq<V> {
    match parse(text)
    case Some(value) => [value]
    case None => []
  }

  function Objects<V>(text: string, parse: Parser<V>): seq<V>
    decreases |text|
  {
    match FirstObject(text)
    case None => []
    case Some((start, end)) => Parsed(text[start..end], parse) + Objects(text[end..], parse)
  }

  /** The end of the object that starts at `start`, found with the source's counter. */
  method FindEnd(text: string, start: nat) returns (end: Option<nat>)
    requires start < |text| && text[start] == '{'
    ensures end.Some? <==> ObjectLength(text[start..], 0).Some?
    ensures end.Some? ==> end.value == start + ObjectLength(text[start..], 0).value
  {
    var depth: nat := 0;
    for offset := start to |text|
      invariant offset == start || depth > 0
      invariant offset == start ==> depth == 0
      invariant ObjectLength(text[start..], 0) == Plus(offset - start, ObjectLength(text[offset..], depth))
    {
      assert text[offset..][1..] == text[offset + 1..];
      if text[offset] == '{' {
        depth := depth + 1;
      } else if text[offset] == '}' {
        depth := depth - 1;
        if depth == 0 {
          return Some(offset + 1);
        }
      }
    }
    end := None;
  }

  lemma ObjectsFrom<V>(text: string, cursor: nat, start: nat, end: nat, parse: Parser<V>)
    requires cursor <= start < end <= |text|
    requires FirstObject(text[cursor..]) == Some((start - cursor, end - cursor))
    ensures Objects(text[cursor..], parse) == Parsed(text[start..end], parse) + Objects(text[end..], parse)
  {
    SlicesAgree(text, cursor, start, end);
    FirstThenRest(text[cursor..], start - cursor, end - cursor, text[start..end], text[end..], parse);
  }

  lemma SlicesAgree(text: string, cursor: nat, start: nat, end: nat)
    requires cursor <= start < end <= |text|
    ensures text[cursor..][start - cursor..end - cursor] == text[start..end]
    ensures text[cursor..][end - cursor..] == text[end..]
  {
  }

  lemma OneObjectLess<V>(text: string, cursor: nat, start: nat, end: nat, parse: Parser<V>, objects: seq<V>)
    requires cursor <= start < end <= |text|
    requires FirstObject(text[cursor..]) == Some((start - cursor, end - cursor))
    requires SplitAt(text, cursor, parse, objects)
    ensures SplitAt(text, end, parse, objects + Parsed(text[start..end], parse))
  {
    ObjectsFrom(text, cursor, start, end, parse);
    Reassociate(objects, Parsed(text[start..end], parse), Objects(text[end..], parse));
  }

  lemma FirstThenRest<V>(text: string, start: nat, end: nat, first: string, rest: string, parse: Parser<V>)
    requires FirstObject(text) == Some((start, end))
    requires first == text[start..end] && rest == text[end..]
    ensures Objects(text, parse) == Parsed(first, parse) + Objects(rest, parse)
  {
  }

  /** The first complete object at or after the cursor. */
  method NextObject(text: string, cursor: nat) returns (r: Option<(nat, nat)>)
    requires cursor <= |text|
    ensures r.Some? ==> cursor <= r.value.0 < r.value.1 <= |text|
                        && FirstObject(text[cursor..]) == Some((r.value.0 - cursor, r.value.1 - cursor))
    ensures r.None? ==> FirstObject(text[cursor..]) == None
  {
    var open := FindOpen(text[cursor..]);
    if open.None? {
      return None;
    }
    var start := cursor + open.value;
    assert text[cursor..][open.value..] == text[start..];
    var end := FindEnd(text, start);
    if end.None? {
      return None;
    }
    r := Some((start, end.value));
  }

  method ParseInto<V>(text: string, parse: Parser<V>, objects: seq<V>) returns (r: seq<V>)
    ensures r == objects + Parsed(text, parse)
  {
    r := objects;
    var value := parse(text);
    if value.Some? {
      r := r + [value.value];
    }
  }

  method CompleteJsonObjects<V>(text: string, parse: Parser<V>) returns (objects: seq<V>)
    ensures objects == Objects(text, parse)
  {
    objects := [];
    var cursor := 0;
    assert text[0..] == text;
    while true
      invariant 0 <= cursor <= |text|
      invariant SplitAt(text, cursor, parse, objects)
      decreases |text| - cursor
    {
      var end;
      end, objects := TakeNext(text, cursor, parse, objects);
      if end.None? {
        return;
      }
      cursor := end.value;
    }
  }

  /** Parses the next object, if there is one, and says where it ends. */
  method TakeNext<V>(text: string, cursor: nat, parse: Parser<V>, found: seq<V>) returns (end: Option<nat>, objects: seq<V>)
    requires cursor <= |text| && SplitAt(text, cursor, parse, found)
    ensures end.Some? ==> cursor < end.value <= |text| && SplitAt(text, end.value, parse, objects)
    ensures end.None? ==> objects == Objects(text, parse)
  {
    objects := found;
    var next := NextObject(text, cursor);
    if next.None? {
      return None, objects;
    }
    var (start, stop) := next.value;
    OneObjectLess(text, cursor, start, stop, parse, objects);
    objects := ParseInto(text[start..stop], parse, objects);
    end := Some(stop);
  }

  /** What was found up to the cursor and what follows it make up all objects of the text. */
  ghost predicate SplitAt<V>(text: string, cursor: nat, parse: Parser<V>, objects: seq<V>)
    requires cursor <= |text|
  {
    Objects(text, parse) == objects + Objects(text[cursor..], parse)
  }

  // ---------------------------------------------------------------- more text only adds objects

  lemma {:induction false} OpenStays(text: string, more: string)
    ensures FindOpen(text).Some? ==> FindOpen(text + more) == FindOpen(text)
    decreases |text|
  {
    if text != [] {
      assert (text + more)[1..] == text[1..] + more;
      OpenStays(text[1..], more);
    }
  }

  lemma {:induction false} LengthStays(text: string, more: string, depth: nat)
    requires depth > 0 || (text != [] && text[0] == '{')
    ensures ObjectLength(text, depth).Some? ==> ObjectLength(text + more, depth) == ObjectLength(text, depth)
    decreases |text|
  {
    if text != [] && !(text[0] == '}' && depth == 1) {
      assert (text + more)[1..] == text[1..] + more;
      LengthStays(text[1..], more, if text[0] == '{' then depth + 1 else if text[0] == '}' then depth - 1 else depth);
    }
  }

  lemma FirstObjectStays(text: string, more: string)
    ensures FirstObject(text).Some? ==> FirstObject(text + more) == FirstObject(text)
  {
    OpenStays(text, more);
    if FindOpen(text).Some? {
      var start := FindOpen(text).value;
      assert (text + more)[start..] == text[start..] + more;
      LengthStays(text[start..], more, 0);
    }
  }

  /** What a text yields is a prefix of what any extension of it yields. */
  lemma {:induction false} ObjectsAreAPrefix<V>(text: string, more: string, parse: Parser<V>)
    ensures Objects(text, parse) <= Objects(text + more, parse)
    decreases |text|
  {
    FirstObjectStays(text, more);
    if FirstObject(text).Some? {
      var (start, end) := FirstObject(text).value;
      assert (text + more)[start..end] == text[start..end];
      assert (text + more)[end..] == text[end..] + more;
      ObjectsAreAPrefix(text[end..], more, parse);
    }
  }

  // ---------------------------------------------------------------- concatenated objects

  /** An object text: it opens with a brace, and its last brace is the first to bring the depth back to zero. */
  predicate Balanced(text: string) {
    text != [] && text[0] == '{' && ObjectLength(text, 0) == Some(|text|)
  }

  predicate NoOpen(text: string) { FindOpen(text).None? }

  lemma {:induction false} OpenAfter(separator: string, text: string)
    requires NoOpen(separator) && text != [] && text[0] == '{'
    ensures FindOpen(separator + text) == Some(|separator|)
    decreases |separator|
  {
    if separator == [] {
      assert separator + text == text;
    } else {
      assert (separator + text)[1..] == separator[1..] + text;
      OpenAfter(separator[1..], text);
    }
  }

  lemma FirstOfStream(separator: string, object_: string, rest: string)
    requires NoOpen(separator) && Balanced(object_)
    ensures FirstObject(separator + (object_ + rest)) == Some((|separator|, |separator| + |object_|))
  {
    OpenAfter(separator, object_ + rest);
    LengthStays(object_, rest, 0);
    assert (separator + (object_ + rest))[|separator|..] == object_ + rest;
  }

  lemma OneObject<V>(separator: string, object_: string, rest: string, parse: Parser<V>)
    requires NoOpen(separator) && Balanced(object_)
    ensures Objects(separator + object_ + rest, parse) == Parsed(object_, parse) + Objects(rest, parse)
  {
    var text := separator + (object_ + rest);
    FirstOfStream(separator, object_, rest);
    assert text == separator + object_ + rest;
    assert text[|separator|..|separator| + |object_|] == object_;
    assert text[|separator| + |object_|..] == rest;
  }

  /** Separators and objects in turn, then whatever follows. */
  function Stream(pieces: seq<(string, string)>, rest: string): string {
    if pieces == [] then rest else pieces[0].0 + pieces[0].1 + Stream(pieces[1..], rest)
  }

  lemma HeadThenTail<V>(values: seq<V>, last: seq<V>)
    requires values != []
    ensures [values[0]] + (values[1..] + last) == values + last
  {
  }

  lemma Reassociate<V>(a: seq<V>, b: seq<V>, c: seq<V>)
    ensures a + (b + c) == a + b + c
  {
  }

  /** Separated objects are all returned, in order, followed by what the rest yields. */
  lemma {:induction false} StreamYieldsItsObjects<V>(pieces: seq<(string, string)>, values: seq<V>, rest: string, parse: Parser<V>)
    requires |pieces| == |values|
    requires forall i :: 0 <= i < |pieces| ==> NoOpen(pieces[i].0) && Balanced(pieces[i].1) && parse(pieces[i].1) == Some(values[i])
    ensures Objects(Stream(pieces, rest), parse) == values + Objects(rest, parse)
    decreases |pieces|
  {
    if pieces == [] {
      assert values + Objects(rest, parse) == Objects(rest, parse);
    } else {
      var below := Stream(pieces[1..], rest);
      OneObject(pieces[0].0, pieces[0].1, below, parse);
      StreamYieldsItsObjects(pieces[1..], values[1..], rest, parse);
      HeadThenTail(values, Objects(rest, parse));
    }
  }

  // ---------------------------------------------------------------- the texts of objects are balanced

  predicate Braceless(text: string) { '{' !in text && '}' !in text }

  /** No string or member name of the text is spelled with a brace. */
  predicate BracelessTexts(d: JsonText.Doc) {
    match d
    case Quoted(body) => Braceless(body)
    case List(items) => forall i :: 0 <= i < |items| ==> BracelessTexts(items[i])
    case Dict(members) => forall i :: 0 <= i < |members| ==> Braceless(members[i].0) && BracelessTexts(members[i].1)
    case _ => true
  }

  lemma {:induction false} BracelessSkips(text: string, rest: string, depth: nat)
    requires Braceless(text) && depth > 0
    ensures Skips(text + rest, rest, depth)
    decreases |text|
  {
    if text == [] {
      assert text + rest == rest;
    } else {
      assert (text + rest)[1..] == text[1..] + rest;
      assert text[0] in text;
      BracelessSkips(text[1..], rest, depth);
    }
  }

  /** Reading on from `rest` after a text that leaves the depth as it was. */
  ghost predicate Skips(text: string, rest: string, depth: nat)
    requires depth > 0
  {
    && |text| >= |rest|
    && ObjectLength(text, depth) == Plus(|text| - |rest|, ObjectLength(rest, depth))
  }

  lemma SkipsOn(text: string, middle: string, rest: string, depth: nat)
    requires depth > 0 && Skips(text, middle, depth) && Skips(middle, rest, depth)
    ensures Skips(text, rest, depth)
  {
  }

  /** Inside braces the depth is one more, and the closing brace brings it back. */
  lemma BracesSkip(inside: string, rest: string, depth: nat)
    requires Skips(inside, "}" + rest, depth + 1)
    ensures depth > 0 ==> Skips("{" + inside, rest, depth)
    ensures depth == 0 ==>
              |"{" + inside| >= |rest| && ObjectLength("{" + inside, 0) == Some(|"{" + inside| - |rest|)
  {
    assert ("}" + rest)[1..] == rest;
    assert ("{" + inside)[1..] == inside;
  }

  /** Tokens that leave the depth as it was, however they are laid out. */
  ghost predicate Nested(tokens: seq<string>) {
    forall spaces, rest, depth :: JsonText.Spacing(spaces, tokens) && depth > 0 ==> LaidSkips(tokens, spaces, rest, depth)
  }

  ghost predicate LaidSkips(tokens: seq<string>, spaces: seq<string>, rest: string, depth: nat)
    requires |spaces| == |tokens| && depth > 0
  {
    Skips(JsonText.Laid(tokens, spaces, rest), rest, depth)
  }

  lemma SpaceSkips(space: string, rest: string, depth: nat)
    requires JsonText.IsSpace(space) && depth > 0
    ensures Skips(space + rest, rest, depth)
  {
    BracelessSkips(space, rest, depth);
  }

  lemma TokenIsNested(token: string)
    requires Braceless(token)
    ensures Nested([token])
  {
    forall spaces, rest, depth | JsonText.Spacing(spaces, [token]) && depth > 0 ensures LaidSkips([token], spaces, rest, depth) {
      BracelessSkips(token, rest, depth);
      SpaceSkips(spaces[0], token + rest, depth);
      SkipsOn(spaces[0] + (token + rest), token + rest, rest, depth);
    }
  }

  lemma NestedConcat(a: seq<string>, b: seq<string>)
    requires Nested(a) && Nested(b)
    ensures Nested(a + b)
  {
    forall spaces, rest, depth | JsonText.Spacing(spaces, a + b) && depth > 0 ensures LaidSkips(a + b, spaces, rest, depth) {
      JsonText.LaidConcat(a, b, spaces, rest);
      var below := JsonText.Laid(b, spaces[|a|..], rest);
      assert JsonText.Spacing(spaces[..|a|], a) && JsonText.Spacing(spaces[|a|..], b);
      assert LaidSkips(a, spaces[..|a|], below, depth) && LaidSkips(b, spaces[|a|..], rest, depth);
      SkipsOn(JsonText.Laid(a, spaces[..|a|], below), below, rest, depth);
    }
  }

  /** What follows the opening brace: the tokens inside and the closing brace. */
  lemma InsideSkips(inside: seq<string>, spaces: seq<string>, rest: string, depth: nat)
    requires Nested(inside) && JsonText.Spacing(spaces, inside + ["}"])
    ensures Skips(JsonText.Laid(inside + ["}"], spaces, rest), "}" + rest, depth + 1)
  {
    var n := |inside|;
    JsonText.LaidConcat(inside, ["}"], spaces, rest);
    var closing := spaces[n] + ("}" + rest);
    assert JsonText.Spacing(spaces[..n], inside);
    assert LaidSkips(inside, spaces[..n], closing, depth + 1);
    SpaceSkips(spaces[n], "}" + rest, depth + 1);
    SkipsOn(JsonText.Laid(inside, spaces[..n], closing), closing, "}" + rest, depth + 1);
  }

  lemma LaidInBraces(inside: seq<string>, spaces: seq<string>, rest: string)
    requires |spaces| == |inside| + 2
    ensures JsonText.Laid(["{"] + inside + ["}"], spaces, rest) == spaces[0] + ("{" + JsonText.Laid(inside + ["}"], spaces[1..], rest))
  {
    var tokens := ["{"] + inside + ["}"];
    assert tokens == ["{"] + (inside + ["}"]) && tokens[1..] == inside + ["}"];
  }

  lemma BracesAreNested(inside: seq<string>)
    requires Nested(inside)
    ensures Nested(["{"] + inside + ["}"])
  {
    var tokens := ["{"] + inside + ["}"];
    forall spaces, rest, depth | JsonText.Spacing(spaces, tokens) && depth > 0 ensures LaidSkips(tokens, spaces, rest, depth) {
      LaidInBraces(inside, spaces, rest);
      var after := JsonText.Laid(inside + ["}"], spaces[1..], rest);
      assert JsonText.Spacing(spaces[1..], inside + ["}"]);
      InsideSkips(inside, spaces[1..], rest, depth);
      BracesSkip(after, rest, depth);
      SpaceSkips(spaces[0], "{" + after, depth);
      SkipsOn(spaces[0] + ("{" + after), "{" + after, rest, depth);
    }
  }

  lemma ConcatIsBraceless(a: string, b: string)
    requires Braceless(a) && Braceless(b)
    ensures Braceless(a + b)
  {
  }

  lemma QuotedIsNested(body: string)
    requires Braceless(body)
    ensures Nested([JsonText.QuotedText(body)])
  {
    ConcatIsBraceless("\"", body);
    ConcatIsBraceless("\"" + body, "\"");
    TokenIsNested(JsonText.QuotedText(body));
  }

  lemma NumberIsNested(d: JsonText.Doc)
    requires d.Num? && JsonText.ValidNumber(d)
    ensures Nested([JsonText.NumberText(d)])
  {
    var sign := if d.negative then "-" else "";
    var fraction := if d.fraction.Some? then "." + d.fraction.value else "";
    var exponent := if d.exponent.Some? then d.exponent.value.0 + d.exponent.value.1 else "";
    assert Braceless(sign) && Braceless(d.whole);
    assert Braceless(fraction) && Braceless(exponent);
    ConcatIsBraceless(sign, d.whole);
    ConcatIsBraceless(sign + d.whole, fraction);
    ConcatIsBraceless(sign + d.whole + fraction, exponent);
    TokenIsNested(JsonText.NumberText(d));
  }

  lemma {:induction false} TextIsNested(d: JsonText.Doc)
    requires JsonText.Valid(d) && BracelessTexts(d)
    ensures Nested(JsonText.Tokens(d))
    decreases d, 1, 0
  {
    match d {
      case Nil => TokenIsNested("null");
      case Flag(flag) => TokenIsNested(if flag then "true" else "false");
      case Num(_, _, _, _) => NumberIsNested(d);
      case Quoted(body) => QuotedIsNested(body);
      case List(_) =>
        TokenIsNested("[");
        TokenIsNested("]");
        ItemsAreNested(d, 0);
        NestedConcat(["["], JsonText.ItemTokens(d, 0));
        NestedConcat(["["] + JsonText.ItemTokens(d, 0), ["]"]);
      case Dict(_) =>
        MembersAreNested(d, 0);
        BracesAreNested(JsonText.MemberTokens(d, 0));
    }
  }

  lemma CommaIsNested(before: seq<string>, after: seq<string>)
    requires Nested(before) && Nested(after)
    ensures Nested(before + ([","] + after))
  {
    TokenIsNested(",");
    NestedConcat([","], after);
    NestedConcat(before, [","] + after);
  }

  lemma {:induction false} ItemsAreNested(d: JsonText.Doc, i: nat)
    requires d.List? && i <= |d.items| && JsonText.Valid(d) && BracelessTexts(d)
    ensures Nested(JsonText.ItemTokens(d, i))
    decreases d, 0, |d.items| - i
  {
    if i < |d.items| {
      TextIsNested(d.items[i]);
      if i + 1 < |d.items| {
        ItemsAreNested(d, i + 1);
        CommaIsNested(JsonText.Tokens(d.items[i]), JsonText.ItemTokens(d, i + 1));
      }
    }
  }

  lemma MemberIsNested(name: string, value: seq<string>)
    requires Braceless(name) && Nested(value)
    ensures Nested([JsonText.QuotedText(name), ":"] + value)
  {
    QuotedIsNested(name);
    TokenIsNested(":");
    assert [JsonText.QuotedText(name), ":"] == [JsonText.QuotedText(name)] + [":"];
    NestedConcat([JsonText.QuotedText(name)], [":"]);
    NestedConcat([JsonText.QuotedText(name), ":"], value);
  }

  lemma {:induction false} MembersAreNested(d: JsonText.Doc, i: nat)
    requires d.Dict? && i <= |d.members| && JsonText.Valid(d) && BracelessTexts(d)
    ensures Nested(JsonText.MemberTokens(d, i))
    decreases d, 0, |d.members| - i
  {
    if i < |d.members| {
      TextIsNested(d.members[i].1);
      MemberIsNested(d.members[i].0, JsonText.Tokens(d.members[i].1));
      if i + 1 < |d.members| {
        MembersAreNested(d, i + 1);
        CommaIsNested([JsonText.QuotedText(d.members[i].0), ":"] + JsonText.Tokens(d.members[i].1), JsonText.MemberTokens(d, i + 1));
      }
    }
  }

  /** An object text: its whitespace lies between its tokens. */
  ghost predicate ObjectText(d: JsonText.Doc, spaces: seq<string>) {
    d.Dict? && JsonText.Valid(d) && JsonText.Spacing(spaces, JsonText.Tokens(d)) && spaces[0] == []
  }

  function TextOf(d: JsonText.Doc, spaces: seq<string>): string
    requires |spaces| == |JsonText.Tokens(d)|
  {
    JsonText.Laid(JsonText.Tokens(d), spaces, "")
  }

  /** Every text of an object without braces in its strings is balanced. */
  lemma EncodedObjectsAreBalanced(d: JsonText.Doc, spaces: seq<string>)
    requires ObjectText(d, spaces) && BracelessTexts(d)
    ensures Balanced(TextOf(d, spaces))
  {
    var inside := JsonText.MemberTokens(d, 0);
    MembersAreNested(d, 0);
    LaidInBraces(inside, spaces, "");
    var after := JsonText.Laid(inside + ["}"], spaces[1..], "");
    assert JsonText.Spacing(spaces[1..], inside + ["}"]);
    InsideSkips(inside, spaces[1..], "", 0);
    BracesSkip(after, "", 0);
    assert [] + ("{" + after) == "{" + after;
  }

  /** One text of a stream: what comes before it, and its spelling. */
  datatype Sample = Sample(before: string, doc: JsonText.Doc, spaces: seq<string>)

  ghost predicate IsSample(s: Sample) {
    NoOpen(s.before) && ObjectText(s.doc, s.spaces) && BracelessTexts(s.doc)
  }

  ghost function Pieces(samples: seq<Sample>): (pieces: seq<(string, string)>)
    requires forall i :: 0 <= i < |samples| ==> IsSample(samples[i])
    ensures |pieces| == |samples|
  {
    seq(|samples|, i requires 0 <= i < |samples| && IsSample(samples[i]) => (samples[i].before, TextOf(samples[i].doc, samples[i].spaces)))
  }

  /**
    A stream of object texts without braces in their strings (members in any
    order, any whitespace, any other escapes, any numbers), separated by text
    without opening braces, yields exactly what the parser reads the texts as.
   */
  lemma EncodedStreamRoundTrip<V>(samples: seq<Sample>, values: seq<V>, end: string, parse: Parser<V>)
    requires NoOpen(end) && |samples| == |values|
    requires forall i :: 0 <= i < |samples| ==> IsSample(samples[i])
    requires forall i :: 0 <= i < |samples| ==> parse(Pieces(samples)[i].1) == Some(values[i])
    ensures Objects(Stream(Pieces(samples), end), parse) == values
  {
    var pieces := Pieces(samples);
    forall i | 0 <= i < |pieces| ensures NoOpen(pieces[i].0) && Balanced(pieces[i].1) && parse(pieces[i].1) == Some(values[i]) {
      assert IsSample(samples[i]);
      EncodedObjectsAreBalanced(samples[i].doc, samples[i].spaces);
    }
    StreamYieldsItsObjects(pieces, values, end, parse);
    assert values + [] == values;
  }

  /** A parser that reads the sent texts as the values they have gives these values back, in order. */
  lemma ValuesComeBack(samples: seq<Sample>, values: seq<Value>, end: string, parse: Parser<Value>)
    requires NoOpen(end) && |samples| == |values|
    requires forall i :: 0 <= i < |samples| ==> IsSample(samples[i]) && JsonText.ValueOf(samples[i].doc) == Some(values[i])
    requires forall i :: 0 <= i < |samples| ==> parse(Pieces(samples)[i].1) == JsonReading.ReadingOf(Pieces(samples)[i].1)
    ensures Objects(Stream(Pieces(samples), end), parse) == values
  {
    forall i | 0 <= i < |samples| ensures parse(Pieces(samples)[i].1) == Some(values[i]) {
      assert IsSample(samples[i]);
      JsonReading.ReadingIsTheValue(samples[i].doc, samples[i].spaces);
    }
    EncodedStreamRoundTrip(samples, values, end, parse);
  }

  /** The hypothesis on braces is needed: the scanner ends an object at a brace inside a string. */
  lemma ABraceInAStringEndsTheObject(inside: string, after: string)
    requires Braceless(inside)
    ensures ObjectLength("{" + (inside + ("}" + after)), 0) == Some(|inside| + 2)
  {
    BracelessSkips(inside, "}" + after, 1);
    BracesSkip(inside + ("}" + after), after, 0);
  }

  // ---------------------------------------------------------------- the two real kinds of texts

  /** The canonical text of a value whose strings and keys hold no brace is one of them. */
  predicate BracelessValue(v: Value) {
    match v
    case String(text) => Braceless(text)
    case Array(items) => forall i :: 0 <= i < |items| ==> BracelessValue(items[i])
    case Object(fields) => forall key :: key in fields ==> Braceless(key) && BracelessValue(fields[key])
    case _ => true
  }

  lemma {:induction false} EscapedIsBraceless(s: string)
    requires Braceless(s)
    ensures Braceless(JsonText.Escaped(s))
    decreases |s|
  {
    if s != [] {
      assert s[0] in s;
      EscapedIsBraceless(s[1..]);
      ConcatIsBraceless(Release.Escape(s[0]), JsonText.Escaped(s[1..]));
    }
  }

  lemma {:induction false} CanonicalIsBraceless(v: Value)
    requires BracelessValue(v)
    ensures BracelessTexts(JsonText.CanonicalDoc(v))
    decreases v
  {
    match v {
      case String(text) => EscapedIsBraceless(text);
      case Array(items) =>
        forall i | 0 <= i < |items| ensures BracelessTexts(JsonText.CanonicalDoc(items[i])) {
          CanonicalIsBraceless(items[i]);
        }
      case Object(fields) =>
        JsonText.KeysAreFields(fields);
        var keys := Release.SortedKeys(fields.Keys);
        forall i | 0 <= i < |keys|
          ensures Braceless(JsonText.Escaped(keys[i])) && BracelessTexts(JsonText.CanonicalDoc(fields[keys[i]]))
        {
          EscapedIsBraceless(keys[i]);
          CanonicalIsBraceless(fields[keys[i]]);
        }
      case _ =>
    }
  }

  lemma CanonicalObjectsAreBalanced(v: Value)
    requires v.Object? && BracelessValue(v)
    ensures Balanced(Release.Canonical(v))
  {
    var d := JsonText.CanonicalDoc(v);
    JsonText.CanonicalIsATextOfItsValue(v);
    JsonText.ValuesAreOfValidTexts(d);
    CanonicalIsBraceless(v);
    EncodedObjectsAreBalanced(d, JsonText.NoSpaces(|JsonText.Tokens(d)|));
  }

  function Count(n: nat): JsonText.Doc { JsonText.Num(false, Text.Decimal(n), None, None) }

  /** One sample of the traffic endpoint, its members in the order they are sent. */
  function TrafficDoc(up: nat, down: nat): JsonText.Doc { JsonText.Dict([("up", Count(up)), ("down", Count(down))]) }

  function TrafficText(up: nat, down: nat): string {
    "{" + ("\"up\"" + (":" + (Text.Decimal(up) + ("," + ("\"down\"" + (":" + (Text.Decimal(down) + "}")))))))
  }

  function TrafficValue(up: nat, down: nat): Value { Object(map["up" := Number(up), "down" := Number(down)]) }

  /** Lower-case letters stand for themselves. */
  lemma {:induction false} LettersReadAsTheyAre(s: string)
    requires forall c :: c in s ==> 'a' <= c <= 'z'
    ensures JsonText.Unescaped(s) == Some(s)
    decreases |s|
  {
    if s != [] {
      assert s[0] in s && forall c :: c in s[1..] ==> c in s;
      LettersReadAsTheyAre(s[1..]);
      assert s == [s[0]] + s[1..];
    }
  }

  lemma CountHasItsValue(n: nat)
    ensures JsonText.ValueOf(Count(n)) == Some(Number(n))
    ensures JsonText.Tokens(Count(n)) == [Text.Decimal(n)]
  {
    Text.DecimalRoundTrip(n);
    JsonText.NoLeadingZero(n);
    assert "" + Text.Decimal(n) + "" + "" == Text.Decimal(n);
  }

  lemma SampleTokens(up: nat, down: nat)
    ensures JsonText.Tokens(TrafficDoc(up, down))
         == ["{", "\"up\"", ":", Text.Decimal(up), ",", "\"down\"", ":", Text.Decimal(down), "}"]
  {
    CountHasItsValue(up);
    CountHasItsValue(down);
    var d := TrafficDoc(up, down);
    assert JsonText.QuotedText("up") == "\"up\"" && JsonText.QuotedText("down") == "\"down\"";
    assert JsonText.MemberTokens(d, 1) == ["\"down\"", ":", Text.Decimal(down)];
    assert JsonText.MemberTokens(d, 0) == ["\"up\"", ":", Text.Decimal(up), ",", "\"down\"", ":", Text.Decimal(down)];
  }

  lemma CompactStep(token: string, tokens: seq<string>)
    ensures JsonText.Compact([token] + tokens, "") == token + JsonText.Compact(tokens, "")
  {
    JsonText.CompactConcat([token], tokens, "");
    JsonText.CompactOne(token, JsonText.Compact(tokens, ""));
  }

  /** Nine tokens one after the other. */
  lemma NineTokens(t: seq<string>)
    requires |t| == 9
    ensures JsonText.Compact(t, "") == t[0] + (t[1] + (t[2] + (t[3] + (t[4] + (t[5] + (t[6] + (t[7] + t[8])))))))
  {
    forall i | 0 <= i < 9 ensures JsonText.Compact(t[i..], "") == t[i] + JsonText.Compact(t[i + 1..], "") {
      assert t[i..] == [t[i]] + t[i + 1..];
      CompactStep(t[i], t[i + 1..]);
    }
    assert t[0..] == t && t[9..] == [] && JsonText.Compact([], "") == "";
    assert JsonText.Compact(t[8..], "") == t[8] + "" == t[8];
  }

  /** The samples the traffic endpoint sends are texts the round trip covers, though not canonical ones. */
  lemma TrafficTextIsASample(before: string, up: nat, down: nat)
    requires NoOpen(before)
    ensures IsSample(Sample(before, TrafficDoc(up, down), JsonText.NoSpaces(9)))
    ensures JsonText.ValueOf(TrafficDoc(up, down)) == Some(TrafficValue(up, down))
    ensures TextOf(TrafficDoc(up, down), JsonText.NoSpaces(9)) == TrafficText(up, down)
  {
    var d := TrafficDoc(up, down);
    SampleTokens(up, down);
    NineTokens(JsonText.Tokens(d));
    LettersReadAsTheyAre("up");
    LettersReadAsTheyAre("down");
    CountHasItsValue(up);
    CountHasItsValue(down);
    assert JsonText.FieldsOf(d, 0) == Some(map[]);
    assert JsonText.FieldsOf(d, 1) == Some(map["up" := Number(up)]);
    assert JsonText.FieldsOf(d, 2) == Some(map["up" := Number(up), "down" := Number(down)]);
    JsonText.ValuesAreOfValidTexts(d);
    assert JsonText.Spacing(JsonText.NoSpaces(9), JsonText.Tokens(d));
  }
}
