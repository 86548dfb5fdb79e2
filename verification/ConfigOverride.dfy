/**
  Per-profile configuration overrides: an ordered list of switchable fragments
  merged last to first onto the client's document, with the fields the client
  keeps for itself.
 */
module ConfigOverride {
  import opened Wrappers
  import opened Json
  import opened JsonMerge

  const RESERVED_POINTERS: seq<seq<string>> := [
    ["experimental", "clash_api", "external_controller"],
    ["experimental", "clash_api", "secret"],
    ["route", "auto_detect_interface"],
    ["inbounds"]]

  const FRAGMENTS_KEY: string := "fragments"
  const IMPLICIT_FRAGMENT_ID: string := "override"
  const IMPLICIT_FRAGMENT_LABEL: string := "整份覆写（手写文件）"

  datatype RuleFragment = RuleFragment(id: string, title: string, enabled: bool, overlay: Value)

  /** A parsed override file. */
  datatype Document = Document(implicit: bool, fragments: seq<RuleFragment>)

  datatype Error =
    | RootNotObject
    | FragmentsNotArray
    | FragmentNotObject(index: nat)
    | UnknownFragmentField(index: nat)
    | IdNotString(index: nat)
    | IdBlank(index: nat)
    | LabelNotString(index: nat)
    | EnabledNotBool(index: nat)
    | OverlayNotObject(index: nat)
    | DuplicateId(index: nat)
    | ImplicitCannotToggle
    | NoSuchFragment

  // ---------------------------------------------------------------- merging a fragment list

  function Enabled(fragments: seq<RuleFragment>): seq<Value> {
    if fragments == [] then []
    else (if fragments[0].enabled then [fragments[0].overlay] else []) + Enabled(fragments[1..])
  }

  /** The overlays merged last to first. */
  function ApplyAll(base: Value, overlays: seq<Value>): Value {
    if overlays == [] then base else Merge(ApplyAll(base, overlays[1..]), overlays[0])
  }

  function Conflicts(overlay: Value): set<seq<string>> {
    set p | p in RESERVED_POINTERS && Lookup(overlay, p).Some?
  }

  function AllConflicts(overlays: seq<Value>): set<seq<string>> {
    if overlays == [] then {} else Conflicts(overlays[0]) + AllConflicts(overlays[1..])
  }

  function ItemsOfAll(overlays: seq<Value>, path: seq<string>): seq<Value> {
    if overlays == [] then [] else ItemsAt(overlays[0], path) + ItemsOfAll(overlays[1..], path)
  }

  lemma {:induction false} OverlayRulesAreInOrder(base: Value, overlays: seq<Value>, path: seq<string>)
    requires path != [] && path[|path| - 1] == RULES
    requires LeadsToArray(base, path) && forall o :: o in overlays ==> LeadsToArray(o, path)
    ensures LeadsToArray(ApplyAll(base, overlays), path)
    ensures ItemsAt(ApplyAll(base, overlays), path) == ItemsOfAll(overlays, path) + ItemsAt(base, path)
  {
    if overlays != [] {
      OverlayRulesAreInOrder(base, overlays[1..], path);
      MergePrependsRules(ApplyAll(base, overlays[1..]), overlays[0], path);
    }
  }

  lemma {:induction false} FirstOverlayWins(base: Value, overlays: seq<Value>, i: nat, path: seq<string>)
    requires i < |overlays| && Replaces(overlays[i], path)
    requires forall j :: 0 <= j < i ==> Untouched(overlays[j], path)
    ensures Lookup(ApplyAll(base, overlays), path) == Lookup(overlays[i], path)
    decreases i
  {
    var below := ApplyAll(base, overlays[1..]);
    if i == 0 {
      ReplacementWins(below, overlays[0], path);
    } else {
      FirstOverlayWins(base, overlays[1..], i - 1, path);
      UntouchedIsKept(below, overlays[0], path);
    }
  }

  lemma {:induction false} UntouchedByAllIsKept(base: Value, overlays: seq<Value>, path: seq<string>)
    requires path != [] && forall o :: o in overlays ==> Untouched(o, path)
    ensures Lookup(ApplyAll(base, overlays), path) == Lookup(base, path)
  {
    if overlays != [] {
      UntouchedByAllIsKept(base, overlays[1..], path);
      UntouchedIsKept(ApplyAll(base, overlays[1..]), overlays[0], path);
    }
  }

  /** A document that has the path. */
  function Nest(path: seq<string>): Value {
    if path == [] then Null else Object(map[path[0] := Nest(path[1..])])
  }

  lemma {:induction false} NestHasThePath(path: seq<string>)
    ensures Lookup(Nest(path), path).Some?
  {
    if path != [] {
      NestHasThePath(path[1..]);
    }
  }

  lemma {:induction false} TouchedByOneIsChanged(overlays: seq<Value>, path: seq<string>) returns (base: Value)
    requires path != [] && exists o :: o in overlays && !Untouched(o, path)
    ensures Lookup(ApplyAll(base, overlays), path) != Lookup(base, path)
  {
    if Untouched(overlays[0], path) {
      var o :| o in overlays && !Untouched(o, path);
      assert o in overlays[1..];
      base := TouchedByOneIsChanged(overlays[1..], path);
      UntouchedIsKept(ApplyAll(base, overlays[1..]), overlays[0], path);
    } else {
      if Lookup(overlays[0], path).Some? {
        base := Null;
      } else {
        base := Nest(path);
        NestHasThePath(path);
      }
      TouchedIsDecided(ApplyAll(base, overlays[1..]), overlays[0], path);
    }
  }

  /** A fragment leaves a reserved field alone: it does not have it and blocks no way to it. */
  predicate SparesField(overlay: Value, path: seq<string>) {
    Lookup(overlay, path).None? && !Blocked(overlay, path)
  }

  lemma FieldSurvivesIffOverlaysSpareIt(overlays: seq<Value>, path: seq<string>)
    requires path != []
    ensures (forall base :: Lookup(ApplyAll(base, overlays), path) == Lookup(base, path))
       <==> (forall o :: o in overlays ==> SparesField(o, path))
  {
    forall o: Value ensures SparesField(o, path) <==> Untouched(o, path) {
      UntouchedIffNeitherPresentNorBlocked(o, path);
    }
    if forall o :: o in overlays ==> Untouched(o, path) {
      forall base ensures Lookup(ApplyAll(base, overlays), path) == Lookup(base, path) {
        UntouchedByAllIsKept(base, overlays, path);
      }
    } else {
      var base := TouchedByOneIsChanged(overlays, path);
    }
  }

  lemma {:induction false} OverlayConflicts(overlays: seq<Value>, path: seq<string>)
    ensures path in AllConflicts(overlays) <==> path in RESERVED_POINTERS && exists o :: o in overlays && Lookup(o, path).Some?
  {
    if overlays != [] {
      OverlayConflicts(overlays[1..], path);
      if path in RESERVED_POINTERS && exists o :: o in overlays && Lookup(o, path).Some? {
        var o :| o in overlays && Lookup(o, path).Some?;
        assert o == overlays[0] || o in overlays[1..];
      }
    }
  }

  // ---------------------------------------------------------------- what the flags select

  /** The places of exactly the fragments that are switched on, in order. */
  ghost predicate Lists(fragments: seq<RuleFragment>, picks: seq<nat>) {
    && (forall k, l :: 0 <= k < l < |picks| ==> picks[k] < picks[l])
    && (forall i: nat :: i in picks <==> i < |fragments| && fragments[i].enabled)
  }

  /** The overlays of exactly the fragments that are switched on, in listed order. */
  ghost predicate Selects(fragments: seq<RuleFragment>, picks: seq<nat>, overlays: seq<Value>) {
    && Lists(fragments, picks)
    && |picks| == |overlays|
    && (forall k :: 0 <= k < |picks| ==> picks[k] in picks && overlays[k] == fragments[picks[k]].overlay)
  }

  lemma {:induction false} EnabledConcat(a: seq<RuleFragment>, b: seq<RuleFragment>)
    ensures Enabled(a + b) == Enabled(a) + Enabled(b)
  {
    if a == [] {
      assert a + b == b;
    } else {
      assert (a + b)[1..] == a[1..] + b;
      EnabledConcat(a[1..], b);
    }
  }

  function Chosen(f: RuleFragment): seq<Value> { if f.enabled then [f.overlay] else [] }

  lemma {:induction false} EnabledLast(fragments: seq<RuleFragment>)
    requires fragments != []
    ensures Enabled(fragments) == Enabled(fragments[..|fragments| - 1]) + Chosen(fragments[|fragments| - 1])
  {
    var n := |fragments| - 1;
    assert fragments == fragments[..n] + [fragments[n]];
    EnabledConcat(fragments[..n], [fragments[n]]);
    assert [fragments[n]][1..] == [] && Enabled([fragments[n]]) == Chosen(fragments[n]) + [];
  }

  lemma {:induction false} EnabledUpTo(fragments: seq<RuleFragment>, i: nat)
    requires i < |fragments|
    ensures Enabled(fragments[..i + 1]) == Enabled(fragments[..i]) + Chosen(fragments[i])
  {
    var head := fragments[..i + 1];
    EnabledLast(head);
    assert head[..|head| - 1] == fragments[..i];
  }

  lemma {:induction false} EnabledSplits(fragments: seq<RuleFragment>, i: nat)
    requires i <= |fragments|
    ensures Enabled(fragments) == Enabled(fragments[..i]) + Enabled(fragments[i..])
  {
    EnabledConcat(fragments[..i], fragments[i..]);
    assert fragments[..i] + fragments[i..] == fragments;
  }

  lemma {:induction false} ListsOneMore(fragments: seq<RuleFragment>, picks: seq<nat>)
    requires fragments != [] && Lists(fragments[..|fragments| - 1], picks)
    ensures var n := |fragments| - 1; Lists(fragments, picks + (if fragments[n].enabled then [n] else []))
  {
    assert forall k :: 0 <= k < |picks| ==> picks[k] in picks;
  }

  lemma {:induction false} SomethingIsSelected(fragments: seq<RuleFragment>) returns (picks: seq<nat>)
    ensures Selects(fragments, picks, Enabled(fragments))
    decreases |fragments|
  {
    picks := [];
    if fragments != [] {
      var n := |fragments| - 1;
      picks := SomethingIsSelected(fragments[..n]);
      ListsOneMore(fragments, picks);
      EnabledLast(fragments);
      picks := picks + (if fragments[n].enabled then [n] else []);
    }
  }

  /** The last fragment, switched on, is the last one listed. */
  lemma {:induction false} LastIsListed(fragments: seq<RuleFragment>, picks: seq<nat>)
    requires fragments != [] && Lists(fragments, picks) && fragments[|fragments| - 1].enabled
    ensures picks != [] && picks[|picks| - 1] == |fragments| - 1
    ensures Lists(fragments[..|fragments| - 1], picks[..|picks| - 1])
  {
    var n, last := |fragments| - 1, |picks| - 1;
    assert n in picks;
    var k :| 0 <= k < |picks| && picks[k] == n;
    assert picks[last] in picks;
    assert k == last;
    forall i: nat ensures i in picks[..last] <==> i < n && fragments[i].enabled {
      if i in picks[..last] {
        var l :| 0 <= l < last && picks[l] == i;
        assert picks[l] in picks;
      } else if i in picks {
        var l :| 0 <= l < |picks| && picks[l] == i;
        assert l == last;
      }
    }
  }

  lemma {:induction false} LastIsNotListed(fragments: seq<RuleFragment>, picks: seq<nat>)
    requires fragments != [] && Lists(fragments, picks) && !fragments[|fragments| - 1].enabled
    ensures Lists(fragments[..|fragments| - 1], picks)
  {
  }

  lemma {:induction false} SelectsWithoutLast(fragments: seq<RuleFragment>, picks: seq<nat>, overlays: seq<Value>)
    requires fragments != [] && Selects(fragments, picks, overlays) && fragments[|fragments| - 1].enabled
    ensures var m := |picks| - 1;
            m >= 0 && overlays[m] == fragments[|fragments| - 1].overlay
            && Selects(fragments[..|fragments| - 1], picks[..m], overlays[..m])
  {
    LastIsListed(fragments, picks);
    assert picks[|picks| - 1] in picks;
  }

  lemma {:induction false} SelectsOneLess(fragments: seq<RuleFragment>, picks: seq<nat>, overlays: seq<Value>) returns (m: nat)
    requires fragments != [] && Selects(fragments, picks, overlays)
    ensures m <= |picks|
    ensures overlays == overlays[..m] + Chosen(fragments[|fragments| - 1])
    ensures Selects(fragments[..|fragments| - 1], picks[..m], overlays[..m])
  {
    if fragments[|fragments| - 1].enabled {
      SelectsWithoutLast(fragments, picks, overlays);
      m := |picks| - 1;
      InitAndLast(overlays);
    } else {
      LastIsNotListed(fragments, picks);
      m := |picks|;
      assert picks[..m] == picks && overlays[..m] == overlays;
    }
  }

  lemma InitAndLast<T>(s: seq<T>)
    requires s != []
    ensures s == s[..|s| - 1] + [s[|s| - 1]]
  {
  }

  lemma {:induction false} SelectionIsTheEnabled(fragments: seq<RuleFragment>, picks: seq<nat>, overlays: seq<Value>)
    requires Selects(fragments, picks, overlays)
    ensures overlays == Enabled(fragments)
    decreases |fragments|
  {
    if fragments != [] {
      var m := SelectsOneLess(fragments, picks, overlays);
      EnabledLast(fragments);
      SelectionIsTheEnabled(fragments[..|fragments| - 1], picks[..m], overlays[..m]);
    } else {
      assert multiset(picks) == multiset{};
      assert |picks| == |multiset(picks)|;
    }
  }

  /** An overlay list is the one that is merged exactly when it lists the fragments whose flag is set, in order. */
  lemma {:induction false} EnabledIff(fragments: seq<RuleFragment>, overlays: seq<Value>)
    ensures overlays == Enabled(fragments) <==> exists picks :: Selects(fragments, picks, overlays)
  {
    var picks := SomethingIsSelected(fragments);
    forall other | Selects(fragments, other, overlays) ensures overlays == Enabled(fragments) {
      SelectionIsTheEnabled(fragments, other, overlays);
    }
  }

  lemma {:induction false} EnabledMembers(fragments: seq<RuleFragment>)
    ensures forall o :: o in Enabled(fragments) <==> exists i :: 0 <= i < |fragments| && fragments[i].enabled && fragments[i].overlay == o
  {
    var picks := SomethingIsSelected(fragments);
    forall o | o in Enabled(fragments) ensures exists i :: 0 <= i < |fragments| && fragments[i].enabled && fragments[i].overlay == o {
      var k :| 0 <= k < |picks| && Enabled(fragments)[k] == o;
      assert fragments[picks[k]].overlay == o;
    }
    forall i | 0 <= i < |fragments| && fragments[i].enabled ensures fragments[i].overlay in Enabled(fragments) {
      var k :| 0 <= k < |picks| && picks[k] == i;
      assert Enabled(fragments)[k] == fragments[i].overlay;
    }
  }

  // ---------------------------------------------------------------- what a fragment list does

  /** A fragment that is switched off is as if it were not listed. */
  lemma DisabledIsAsIfAbsent(base: Value, fragments: seq<RuleFragment>, i: nat)
    requires i < |fragments| && !fragments[i].enabled
    ensures var without := fragments[..i] + fragments[i + 1..];
            && ApplyAll(base, Enabled(fragments)) == ApplyAll(base, Enabled(without))
            && AllConflicts(Enabled(fragments)) == AllConflicts(Enabled(without))
  {
    EnabledUpTo(fragments, i);
    EnabledSplits(fragments, i + 1);
    EnabledConcat(fragments[..i], fragments[i + 1..]);
    assert Enabled(fragments[..i]) + [] == Enabled(fragments[..i]);
  }

  /**
    Every `rules` array ends up as the arrays of the fragments switched on, in
    listed order, followed by the base's, wherever all of them have an array
    there or nothing.
   */
  lemma RulesAreInListedOrder(base: Value, fragments: seq<RuleFragment>, picks: seq<nat>, overlays: seq<Value>, path: seq<string>)
    requires Selects(fragments, picks, overlays)
    requires path != [] && path[|path| - 1] == RULES
    requires LeadsToArray(base, path) && forall o :: o in overlays ==> LeadsToArray(o, path)
    ensures LeadsToArray(ApplyAll(base, Enabled(fragments)), path)
    ensures ItemsAt(ApplyAll(base, Enabled(fragments)), path) == ItemsOfAll(overlays, path) + ItemsAt(base, path)
  {
    SelectionIsTheEnabled(fragments, picks, overlays);
    OverlayRulesAreInOrder(base, overlays, path);
  }

  /** The first fragment listed and switched on that sets a field decides it, whatever the base and the later fragments say. */
  lemma FirstFragmentWins(base: Value, fragments: seq<RuleFragment>, i: nat, path: seq<string>)
    requires i < |fragments| && fragments[i].enabled && Replaces(fragments[i].overlay, path)
    requires forall j :: 0 <= j < i && fragments[j].enabled ==> Untouched(fragments[j].overlay, path)
    ensures Lookup(ApplyAll(base, Enabled(fragments)), path) == Lookup(fragments[i].overlay, path)
  {
    var before := Enabled(fragments[..i]);
    EnabledUpTo(fragments, i);
    EnabledSplits(fragments, i + 1);
    EnabledMembers(fragments[..i]);
    assert Enabled(fragments)[|before|] == fragments[i].overlay;
    forall j | 0 <= j < |before| ensures Untouched(Enabled(fragments)[j], path) {
      assert before[j] in before;
    }
    FirstOverlayWins(base, Enabled(fragments), |before|, path);
  }

  /** A conflict is reported exactly for a reserved field that some fragment switched on has. */
  lemma ConflictsAreReported(fragments: seq<RuleFragment>, path: seq<string>)
    ensures path in AllConflicts(Enabled(fragments))
       <==> path in RESERVED_POINTERS && exists i :: 0 <= i < |fragments| && fragments[i].enabled && Lookup(fragments[i].overlay, path).Some?
  {
    EnabledMembers(fragments);
    OverlayConflicts(Enabled(fragments), path);
  }

  /**
    A field of every base survives the fragments exactly when each of them that is
    switched on reports no conflict on it and puts no non-object on the way to it.
   */
  lemma {:induction false} FieldSurvivesIffSpared(fragments: seq<RuleFragment>, path: seq<string>)
    requires path != []
    ensures (forall base :: Lookup(ApplyAll(base, Enabled(fragments)), path) == Lookup(base, path))
       <==> (forall i :: 0 <= i < |fragments| && fragments[i].enabled ==> SparesField(fragments[i].overlay, path))
  {
    EnabledMembers(fragments);
    FieldSurvivesIffOverlaysSpareIt(Enabled(fragments), path);
    if forall i :: 0 <= i < |fragments| && fragments[i].enabled ==> SparesField(fragments[i].overlay, path) {
      forall o | o in Enabled(fragments) ensures SparesField(o, path) {
        var i :| 0 <= i < |fragments| && fragments[i].enabled && fragments[i].overlay == o;
      }
    } else {
      var i :| 0 <= i < |fragments| && fragments[i].enabled && !SparesField(fragments[i].overlay, path);
      assert fragments[i].overlay in Enabled(fragments);
    }
  }

  /** With no reported conflict and no blocked way, all of the client's own fields survive. */
  lemma {:induction false} ReservedFieldsSurvive(base: Value, fragments: seq<RuleFragment>, path: seq<string>)
    requires path in RESERVED_POINTERS
    requires AllConflicts(Enabled(fragments)) == {}
    requires forall i :: 0 <= i < |fragments| && fragments[i].enabled ==> !Blocked(fragments[i].overlay, path)
    ensures Lookup(ApplyAll(base, Enabled(fragments)), path) == Lookup(base, path)
  {
    ConflictsAreReported(fragments, path);
    forall i | 0 <= i < |fragments| && fragments[i].enabled ensures SparesField(fragments[i].overlay, path) {
    }
    FieldSurvivesIffSpared(fragments, path);
  }

  // ---------------------------------------------------------------- the parsed file

  class ProfileOverride {
    var implicit: bool
    var fragments: seq<RuleFragment>

    constructor (document: Document)
      ensures implicit == document.implicit && fragments == document.fragments
    {
      implicit, fragments := document.implicit, document.fragments;
    }

    /** Merges the enabled fragments onto the base and reports the reserved fields they name. */
    method Apply(base: Value) returns (merged: Value, conflicts: set<seq<string>>)
      ensures merged == ApplyAll(base, Enabled(fragments))
      ensures conflicts == AllConflicts(Enabled(fragments))
    {
      merged, conflicts := base, {};
      var i := |fragments|;
      while i > 0
        invariant 0 <= i <= |fragments|
        invariant merged == ApplyAll(base, Enabled(fragments[i..]))
        invariant conflicts == AllConflicts(Enabled(fragments[i..]))
      {
        i := i - 1;
        assert fragments[i..][1..] == fragments[i + 1..];
        ghost var below := Enabled(fragments[i + 1..]);
        assert Enabled(fragments[i..]) == (if fragments[i].enabled then [fragments[i].overlay] else []) + below;
        if !fragments[i].enabled {
          assert Enabled(fragments[i..]) == below;
        }
        if fragments[i].enabled {
          assert Enabled(fragments[i..])[1..] == below;
          merged := DeepMerge(merged, fragments[i].overlay);
          conflicts := conflicts + Conflicts(fragments[i].overlay);
        }
      }
      assert fragments[0..] == fragments;
    }

    /** Switches one fragment; everything else about the file stays as it is. */
    method Toggle(id: string, enabled: Option<bool>) returns (r: Result<bool, Error>)
      modifies this
      ensures implicit == old(implicit)
      ensures r.Err? ==> fragments == old(fragments)
      ensures implicit ==> r == Err(ImplicitCannotToggle)
      ensures !implicit ==> (r.Ok? <==> exists i :: 0 <= i < |old(fragments)| && old(fragments)[i].id == id)
      ensures !implicit && r.Err? ==> r.error == NoSuchFragment
      ensures r.Ok? ==> exists i :: 0 <= i < |old(fragments)| && FirstWithId(old(fragments), id, i)
                          && r.value == (if enabled.Some? then enabled.value else !old(fragments)[i].enabled)
                          && fragments == old(fragments)[i := old(fragments)[i].(enabled := r.value)]
    {
      if implicit {
        return Err(ImplicitCannotToggle);
      }
      for position := 0 to |fragments|
        invariant fragments == old(fragments)
        invariant forall k :: 0 <= k < position ==> fragments[k].id != id
      {
        if fragments[position].id == id {
          var value := if enabled.Some? then enabled.value else !fragments[position].enabled;
          fragments := fragments[position := fragments[position].(enabled := value)];
          assert FirstWithId(old(fragments), id, position);
          return Ok(value);
        }
      }
      r := Err(NoSuchFragment);
    }
  }

  ghost predicate FirstWithId(fragments: seq<RuleFragment>, id: string, i: nat) {
    i < |fragments| && fragments[i].id == id && forall k :: 0 <= k < i ==> fragments[k].id != id
  }

  // ---------------------------------------------------------------- reading and writing the file

  predicate IsWhitespace(c: char) {
    var n := c as int;
    || 0x09 <= n <= 0x0D || n == 0x20 || n == 0x85 || n == 0xA0 || n == 0x1680 || 0x2000 <= n <= 0x200A
    || n == 0x2028 || n == 0x2029 || n == 0x202F || n == 0x205F || n == 0x3000
  }

  predicate IsBlank(text: string) { forall c :: c in text ==> IsWhitespace(c) }

  const FRAGMENT_FIELDS: set<string> := {"id", "label", "enabled", "overlay"}

  function ParseFragment(entry: Value, index: nat): Result<RuleFragment, Error> {
    if !entry.Object? then Err(FragmentNotObject(index))
    else
      var f := entry.fields;
      if !(f.Keys <= FRAGMENT_FIELDS) then Err(UnknownFragmentField(index))
      else if "id" !in f || !f["id"].String? then Err(IdNotString(index))
      else if IsBlank(f["id"].text) then Err(IdBlank(index))
      else if "label" in f && !f["label"].String? then Err(LabelNotString(index))
      else if "enabled" in f && !f["enabled"].Bool? then Err(EnabledNotBool(index))
      else if "overlay" !in f || !f["overlay"].Object? then Err(OverlayNotObject(index))
      else Ok(RuleFragment(f["id"].text,
                           if "label" in f then f["label"].text else f["id"].text,
                           if "enabled" in f then f["enabled"].flag else true,
                           f["overlay"]))
  }

  /** What a fragment must be to be read: no unknown field, an id that is not blank, an object to merge. */
  lemma FragmentIsReadIff(entry: Value, index: nat)
    ensures ParseFragment(entry, index).Ok?
       <==> && entry.Object?
            && (forall key :: key in entry.fields ==> key in ["id", "label", "enabled", "overlay"])
            && (forall key :: key in ["id", "overlay"] ==> key in entry.fields)
            && (forall key :: key in ["id", "label"] && key in entry.fields ==> entry.fields[key].String?)
            && !IsBlank(entry.fields["id"].text)
            && ("enabled" in entry.fields ==> entry.fields["enabled"].Bool?) && entry.fields["overlay"].Object?
    ensures ParseFragment(entry, index).Ok? ==>
              var f := ParseFragment(entry, index).value;
              && f.id == entry.fields["id"].text && f.overlay == entry.fields["overlay"]
              && ("label" in entry.fields ==> f.title == entry.fields["label"].text)
              && ("enabled" in entry.fields ==> f.enabled == entry.fields["enabled"].flag)
  {
    assert "id" in ["id", "overlay"] && "overlay" in ["id", "overlay"] && "id" in ["id", "label"] && "label" in ["id", "label"];
    if entry.Object? {
      assert (forall key :: key in entry.fields ==> key in ["id", "label", "enabled", "overlay"]) <==> entry.fields.Keys <= FRAGMENT_FIELDS;
    }
  }

  /** A fragment without a flag is switched on; one without a label is called by its id. */
  lemma OmittedFieldsHaveDefaults(fields: map<string, Value>, index: nat)
    ensures ParseFragment(Object(fields - {"enabled"}), index) == ParseFragment(Object(fields["enabled" := Bool(true)]), index)
    ensures "id" in fields ==> ParseFragment(Object(fields - {"label"}), index) == ParseFragment(Object(fields["label" := fields["id"]]), index)
  {
  }

  /** What the whole file must say for the parse to succeed, and what it then means. */
  ghost predicate Means(document: Value, d: Document) {
    && document.Object?
    && if FRAGMENTS_KEY !in document.fields then
         d == Document(true, [RuleFragment(IMPLICIT_FRAGMENT_ID, IMPLICIT_FRAGMENT_LABEL, true, document)])
       else
         && document.fields[FRAGMENTS_KEY].Array?
         && !d.implicit
         && |d.fragments| == |document.fields[FRAGMENTS_KEY].items|
         && (forall i :: 0 <= i < |d.fragments| ==> ParseFragment(document.fields[FRAGMENTS_KEY].items[i], i) == Ok(d.fragments[i]))
         && IdsDistinct(d.fragments)
  }

  predicate IdsDistinct(fragments: seq<RuleFragment>) {
    forall i, j :: 0 <= i < j < |fragments| ==> fragments[i].id != fragments[j].id
  }

  /** Ids are distinct exactly when every fragment is the first one with its id, so that a toggle by its id reaches it. */
  lemma DistinctIffAddressable(fragments: seq<RuleFragment>)
    ensures IdsDistinct(fragments) <==> forall i :: 0 <= i < |fragments| ==> FirstWithId(fragments, fragments[i].id, i)
  {
    if !IdsDistinct(fragments) {
      var i, j :| 0 <= i < j < |fragments| && fragments[i].id == fragments[j].id;
      assert !FirstWithId(fragments, fragments[j].id, j);
    }
  }

  method Parse(document: Value) returns (r: Result<Document, Error>)
    ensures r.Ok? ==> Means(document, r.value)
    ensures r.Err? ==> forall d :: !Means(document, d)
  {
    if !document.Object? {
      return Err(RootNotObject);
    }
    if FRAGMENTS_KEY !in document.fields {
      return Ok(Document(true, [RuleFragment(IMPLICIT_FRAGMENT_ID, IMPLICIT_FRAGMENT_LABEL, true, document)]));
    }
    if !document.fields[FRAGMENTS_KEY].Array? {
      return Err(FragmentsNotArray);
    }
    var list := document.fields[FRAGMENTS_KEY].items;
    var fragments: seq<RuleFragment> := [];
    for index := 0 to |list|
      invariant |fragments| == index
      invariant forall i :: 0 <= i < index ==> ParseFragment(list[i], i) == Ok(fragments[i])
    {
      var fragment := ParseFragment(list[index], index);
      if fragment.Err? {
        return Err(fragment.error);
      }
      fragments := fragments + [fragment.value];
    }
    var seen: seq<string> := [];
    for index := 0 to |fragments|
      invariant |seen| == index && forall i :: 0 <= i < index ==> seen[i] == fragments[i].id
      invariant IdsDistinct(fragments[..index])
    {
      if fragments[index].id in seen {
        return Err(DuplicateId(index));
      }
      seen := seen + [fragments[index].id];
    }
    assert fragments[..|fragments|] == fragments;
    r := Ok(Document(false, fragments));
  }

  /** A hand-written file without a fragment list is merged as a whole. */
  lemma HandWrittenFileIsMerged(document: Value, d: Document, base: Value)
    requires Means(document, d) && FRAGMENTS_KEY !in document.fields
    ensures ApplyAll(base, Enabled(d.fragments)) == Merge(base, document)
    ensures AllConflicts(Enabled(d.fragments)) == Conflicts(document)
  {
    assert d.fragments[1..] == [] && Enabled(d.fragments) == [document];
    assert [document][1..] == [];
  }

  function FragmentValue(f: RuleFragment): Value {
    Object(map["id" := String(f.id), "label" := String(f.title), "enabled" := Bool(f.enabled), "overlay" := f.overlay])
  }

  /** The documented fragment shape every rewritten file has. */
  function ToDocument(fragments: seq<RuleFragment>): Value {
    Object(map[FRAGMENTS_KEY := Array(seq(|fragments|, i requires 0 <= i < |fragments| => FragmentValue(fragments[i])))])
  }

  predicate Writable(fragments: seq<RuleFragment>) {
    && IdsDistinct(fragments)
    && forall f :: f in fragments ==> !IsBlank(f.id) && f.overlay.Object?
  }

  /** A written list reads back as itself, and is readable at all, exactly when it is writable. */
  lemma WrittenFileReadsBack(fragments: seq<RuleFragment>, d: Document)
    ensures Means(ToDocument(fragments), d) <==> Writable(fragments) && d == Document(false, fragments)
  {
    forall f: RuleFragment, index: nat
      ensures ParseFragment(FragmentValue(f), index) == Ok(f) || ParseFragment(FragmentValue(f), index).Err?
      ensures ParseFragment(FragmentValue(f), index).Ok? <==> !IsBlank(f.id) && f.overlay.Object?
    {
    }
    var items := ToDocument(fragments).fields[FRAGMENTS_KEY].items;
    if Means(ToDocument(fragments), d) {
      forall i | 0 <= i < |fragments| ensures fragments[i] == d.fragments[i] && ParseFragment(items[i], i).Ok? {
        assert items[i] == FragmentValue(fragments[i]);
      }
      assert d.fragments == fragments;
    }
  }

  /** Whatever the parser accepts is writable, so reading, switching and rewriting loses nothing. */
  lemma ParsedIsWritable(document: Value, d: Document)
    requires Means(document, d)
    ensures Writable(d.fragments)
    ensures Means(ToDocument(d.fragments), Document(false, d.fragments))
  {
    if FRAGMENTS_KEY in document.fields {
      forall f | f in d.fragments ensures !IsBlank(f.id) && f.overlay.Object? {
        var i :| 0 <= i < |d.fragments| && d.fragments[i] == f;
        assert ParseFragment(document.fields[FRAGMENTS_KEY].items[i], i) == Ok(f);
      }
    } else {
      assert 'o' in IMPLICIT_FRAGMENT_ID by {
        assert IMPLICIT_FRAGMENT_ID[0] == 'o';
      }
    }
    WrittenFileReadsBack(d.fragments, Document(false, d.fragments));
  }
}
