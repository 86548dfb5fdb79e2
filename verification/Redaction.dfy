/** Keeping the subscription credential out of diagnostics. */
module Redaction {
  import opened Routes

  const REDACTED: string := "[redacted]"

  /** Replaces the occurrences found left to right without overlap. */
  function Replace(text: string, secret: string): string
    requires secret != []
    decreases |text|
  {
    if |text| < |secret| then text
    else if secret <= text then REDACTED + Replace(text[|secret|..], secret)
    else [text[0]] + Replace(text[1..], secret)
  }

  function RedactSecret(text: string, secret: string): string {
    if secret == [] then text else Replace(text, secret)
  }

  predicate OccursAt(text: string, secret: string, i: nat) {
    i + |secret| <= |text| && text[i..i + |secret|] == secret
  }

  predicate Occurs(text: string, secret: string) {
    exists i :: 0 <= i <= |text| && OccursAt(text, secret, i)
  }

  /** As far as the result shows no replacement it is the original text. */
  lemma {:induction false} UnreplacedIsOriginal(text: string, secret: string, k: nat)
    requires secret != [] && k <= |Replace(text, secret)|
    requires '[' !in Replace(text, secret)[..k]
    ensures k <= |text| && Replace(text, secret)[..k] == text[..k]
    decreases |text|
  {
    var out := Replace(text, secret);
    if k > 0 && |text| >= |secret| {
      assert out[0] == out[..k][0] && out[0] in out[..k];
      if secret <= text {
        assert false;
      } else {
        var rest := Replace(text[1..], secret);
        assert out[..k] == [text[0]] + rest[..k - 1];
        assert forall c :: c in rest[..k - 1] ==> c in out[..k];
        UnreplacedIsOriginal(text[1..], secret, k - 1);
        assert text[..k] == [text[0]] + text[1..][..k - 1];
      }
    }
  }

  /** A replacement cannot take part in an occurrence of a secret without brackets that "redacted" does not contain. */
  lemma OccurrenceIsPastTheReplacement(rest: string, secret: string, i: nat)
    requires '[' !in secret && ']' !in secret && |secret| > 8
    requires OccursAt(REDACTED + rest, secret, i)
    ensures i >= |REDACTED| && OccursAt(rest, secret, i - |REDACTED|)
  {
    var out := REDACTED + rest;
    assert out[0] == '[' && out[9] == ']';
    assert forall j :: i <= j < i + |secret| ==> out[j] == out[i..i + |secret|][j - i] && out[j] in secret;
    assert out[i..i + |secret|] == rest[i - |REDACTED|..i - |REDACTED| + |secret|];
  }

  lemma {:induction false} NothingOccursAt(text: string, secret: string, i: nat)
    requires '[' !in secret && ']' !in secret && |secret| > 8
    ensures !OccursAt(Replace(text, secret), secret, i)
    decreases |text|
  {
    var out := Replace(text, secret);
    if OccursAt(out, secret, i) && |text| >= |secret| {
      if secret <= text {
        OccurrenceIsPastTheReplacement(Replace(text[|secret|..], secret), secret, i);
        NothingOccursAt(text[|secret|..], secret, i - |REDACTED|);
      } else if i == 0 {
        assert out[..|secret|] == secret;
        UnreplacedIsOriginal(text, secret, |secret|);
      } else {
        assert out[i..i + |secret|] == Replace(text[1..], secret)[i - 1..i - 1 + |secret|];
        NothingOccursAt(text[1..], secret, i - 1);
      }
    }
  }

  /**
    A redacted text shows a valid credential nowhere, not even across the edge of
    a replacement.
   */
  lemma RedactedTextHidesTheCredential(text: string, credential: string)
    requires ValidCredential(credential)
    ensures !Occurs(RedactSecret(text, credential), credential)
  {
    assert !UrlSafe('[') && !UrlSafe(']');
    forall i: nat ensures !OccursAt(RedactSecret(text, credential), credential, i) {
      NothingOccursAt(text, credential, i);
    }
  }

  // ---------------------------------------------------------------- and changes nothing else

  function Join(pieces: seq<string>, separator: string): string
    requires pieces != []
  {
    if |pieces| == 1 then pieces[0] else pieces[0] + separator + Join(pieces[1..], separator)
  }

  lemma {:induction false} JoinCons(c: char, pieces: seq<string>, separator: string)
    requires pieces != []
    ensures Join([[c] + pieces[0]] + pieces[1..], separator) == [c] + Join(pieces, separator)
  {
    var longer := [[c] + pieces[0]] + pieces[1..];
    if |pieces| > 1 {
      assert longer[1..] == pieces[1..];
      assert [c] + (pieces[0] + separator + Join(pieces[1..], separator)) == [c] + pieces[0] + separator + Join(pieces[1..], separator);
    }
  }

  lemma JoinEmpty(pieces: seq<string>, separator: string)
    requires pieces != []
    ensures Join([[]] + pieces, separator) == separator + Join(pieces, separator)
  {
    assert ([[]] + pieces)[1..] == pieces;
    assert [] + separator == separator;
  }

  /** The text with the secret between its pieces becomes the same pieces with the marker between them. */
  lemma {:induction false} RedactionReplacesTheSecretOnly(text: string, secret: string) returns (pieces: seq<string>)
    requires secret != []
    ensures pieces != []
    ensures Join(pieces, secret) == text
    ensures Join(pieces, REDACTED) == RedactSecret(text, secret)
    decreases |text|
  {
    if |text| < |secret| {
      pieces := [text];
    } else if secret <= text {
      var rest := RedactionReplacesTheSecretOnly(text[|secret|..], secret);
      pieces := [[]] + rest;
      JoinEmpty(rest, secret);
      JoinEmpty(rest, REDACTED);
      SplitText(text, secret);
    } else {
      var rest := RedactionReplacesTheSecretOnly(text[1..], secret);
      pieces := [[text[0]] + rest[0]] + rest[1..];
      JoinCons(text[0], rest, secret);
      JoinCons(text[0], rest, REDACTED);
      SplitText(text, [text[0]]);
    }
  }

  lemma SplitText(text: string, start: string)
    requires start <= text
    ensures text == start + text[|start|..]
  {
  }

  lemma {:induction false} OtherTextIsLeftAlone(text: string, secret: string)
    requires secret != [] && !Occurs(text, secret)
    ensures RedactSecret(text, secret) == text
    decreases |text|
  {
    if |text| >= |secret| {
      assert !OccursAt(text, secret, 0);
      forall i | 0 <= i <= |text[1..]| ensures !OccursAt(text[1..], secret, i) {
        assert !OccursAt(text, secret, i + 1);
        assert i + |secret| <= |text[1..]| ==> text[i + 1..i + 1 + |secret|] == text[1..][i..i + |secret|];
      }
      OtherTextIsLeftAlone(text[1..], secret);
    }
  }
}
