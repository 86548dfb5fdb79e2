/**
  The deep merge behind every configuration override: objects merge, other
  values replace, and an array under a key named `rules` is prepended.
 */
module JsonMerge {
  import opened Wrappers
  import opened Json

  const RULES: string := "rules"

  function Merge(base: Value, overlay: Value): Value
    decreases overlay, 0
  {
    if base.Object? && overlay.Object? then Object(MergeFields(base.fields, overlay, overlay.fields.Keys))
    else overlay
  }

  /** What the merge makes of a key both documents have. */
  function MergeField(key: string, base: Value, overlay: Value): Value
    decreases overlay, 1
  {
    if key == RULES && base.Array? && overlay.Array? then Array(overlay.items + base.items)
    else Merge(base, overlay)
  }

  /** The base fields with the overlay's fields for `keys` merged in. */
  function MergeFields(base: map<string, Value>, overlay: Value, keys: set<string>): map<string, Value>
    requires overlay.Object? && keys <= overlay.fields.Keys
    decreases overlay, 0, keys
  {
    map key | key in base.Keys + keys ::
      if key !in keys then base[key]
      else if key !in base then overlay.fields[key]
      else MergeField(key, base[key], overlay.fields[key])
  }

  lemma FieldOfMerge(base: Value, overlay: Value, key: string)
    requires base.Object? && overlay.Object?
    ensures var m := Merge(base, overlay);
            && m.Object?
            && (key in m.fields <==> key in base.fields || key in overlay.fields)
            && (key in m.fields ==>
                  m.fields[key] == if key !in overlay.fields then base.fields[key]
                                   else if key !in base.fields then overlay.fields[key]
                                   else MergeField(key, base.fields[key], overlay.fields[key]))
  {
  }

  /** The source's in-place merge: `merged` is the base after it. */
  method DeepMerge(base: Value, overlay: Value) returns (merged: Value)
    ensures merged == Merge(base, overlay)
    decreases overlay
  {
    if base.Object? && overlay.Object? {
      var baseMap := base.fields;
      var todo := overlay.fields.Keys;
      while todo != {}
        invariant todo <= overlay.fields.Keys
        invariant baseMap == MergeFields(base.fields, overlay, overlay.fields.Keys - todo)
        decreases todo
      {
        var key :| key in todo;
        var value := overlay.fields[key];
        if key in baseMap {
          var existing := baseMap[key];
          if key == RULES && existing.Array? && value.Array? {
            baseMap := baseMap[key := Array(value.items + existing.items)];
          } else {
            var below := DeepMerge(existing, value);
            baseMap := baseMap[key := below];
          }
        } else {
          baseMap := baseMap[key := value];
        }
        todo := todo - {key};
      }
      merged := Object(baseMap);
    } else {
      merged := overlay;
    }
  }

  // ---------------------------------------------------------------- composition of overlays

  /**
    Overlay y may follow overlay x: wherever y has an object x has none or an
    object, and under a `rules` key wherever y has an array so has x.
   */
  predicate Composable(x: Value, y: Value)
    decreases y, 0
  {
    y.Object? ==>
      && x.Object?
      && forall key :: key in x.fields && key in y.fields ==> ComposableField(key, x.fields[key], y.fields[key])
  }

  predicate ComposableField(key: string, x: Value, y: Value)
    decreases y, 1
  {
    if key == RULES && y.Array? then x.Array? else Composable(x, y)
  }

  lemma {:induction false} ComposableOverlaysCompose(base: Value, x: Value, y: Value)
    requires Composable(x, y)
    ensures Merge(Merge(base, x), y) == Merge(base, Merge(x, y))
    decreases y, 0
  {
    if y.Object? {
      if base.Object? {
        var left, right := Merge(Merge(base, x), y).fields, Merge(base, Merge(x, y)).fields;
        forall key ensures key in left <==> key in right
                   ensures key in left && key in right ==> left[key] == right[key]
        {
          FieldOfMerge(base, x, key);
          FieldOfMerge(Merge(base, x), y, key);
          FieldOfMerge(x, y, key);
          FieldOfMerge(base, Merge(x, y), key);
          if key in base.fields && key in x.fields && key in y.fields {
            ComposableFieldsCompose(key, base.fields[key], x.fields[key], y.fields[key]);
          }
        }
      }
    }
  }

  lemma {:induction false} ComposableFieldsCompose(key: string, base: Value, x: Value, y: Value)
    requires ComposableField(key, x, y)
    ensures MergeField(key, MergeField(key, base, x), y) == MergeField(key, base, MergeField(key, x, y))
    decreases y, 1
  {
    if key == RULES && y.Array? {
      if base.Array? {
        assert y.items + (x.items + base.items) == y.items + x.items + base.items;
      }
    } else {
      ComposableOverlaysCompose(base, x, y);
    }
  }

  lemma {:induction false} SomeUnusedKey(keys: set<string>) returns (unused: string)
    ensures unused !in keys
    ensures forall key :: key in keys ==> |key| < |unused|
    decreases keys
  {
    if keys == {} {
      unused := "k";
    } else {
      var key :| key in keys;
      var shorter := SomeUnusedKey(keys - {key});
      unused := if |key| < |shorter| then shorter else key + "k";
      forall other | other in keys ensures |other| < |unused| {
        if other != key {
          assert other in keys - {key};
        }
      }
    }
  }

  /** A base on which merging x and then y differs from merging the merged overlay. */
  lemma {:induction false} OtherwiseSomeBaseTellsThemApart(x: Value, y: Value) returns (base: Value)
    requires !Composable(x, y)
    ensures Merge(Merge(base, x), y) != Merge(base, Merge(x, y))
    decreases y, 0
  {
    if !x.Object? {
      var unused := SomeUnusedKey(y.fields.Keys);
      base := Object(map[unused := Null]);
      FieldOfMerge(base, y, unused);
    } else {
      var key :| key in x.fields && key in y.fields && !ComposableField(key, x.fields[key], y.fields[key]);
      var below := OtherwiseSomeFieldTellsThemApart(key, x.fields[key], y.fields[key]);
      base := Object(map[key := below]);
      FieldOfMerge(base, x, key);
      FieldOfMerge(Merge(base, x), y, key);
      FieldOfMerge(x, y, key);
      FieldOfMerge(base, Merge(x, y), key);
      assert Merge(Merge(base, x), y).fields[key] == MergeField(key, MergeField(key, below, x.fields[key]), y.fields[key]);
      assert Merge(base, Merge(x, y)).fields[key] == MergeField(key, below, MergeField(key, x.fields[key], y.fields[key]));
    }
  }

  lemma {:induction false} OtherwiseSomeFieldTellsThemApart(key: string, x: Value, y: Value) returns (base: Value)
    requires !ComposableField(key, x, y)
    ensures MergeField(key, MergeField(key, base, x), y) != MergeField(key, base, MergeField(key, x, y))
    decreases y, 1
  {
    if key == RULES && y.Array? {
      base := Array([Null]);
      assert |y.items + [Null]| != |y.items|;
    } else {
      base := OtherwiseSomeBaseTellsThemApart(x, y);
      if !x.Object? && base.Array? {
        assert false;
      }
    }
  }

  /** Two overlays merge onto every base as their merge does exactly when they are composable. */
  lemma OverlaysComposeIff(x: Value, y: Value)
    ensures (forall base :: Merge(Merge(base, x), y) == Merge(base, Merge(x, y))) <==> Composable(x, y)
  {
    if Composable(x, y) {
      forall base ensures Merge(Merge(base, x), y) == Merge(base, Merge(x, y)) {
        ComposableOverlaysCompose(base, x, y);
      }
    } else {
      var base := OtherwiseSomeBaseTellsThemApart(x, y);
    }
  }

  /** The same kind (object, array, other) at every path both overlays have. */
  predicate SameKinds(x: Value, y: Value)
    decreases y
  {
    && (x.Object? <==> y.Object?)
    && (x.Array? <==> y.Array?)
    && (x.Object? ==> forall key :: key in x.fields && key in y.fields ==> SameKinds(x.fields[key], y.fields[key]))
  }

  lemma {:induction false} SameKindsAreComposable(x: Value, y: Value)
    requires SameKinds(x, y)
    ensures Composable(x, y)
    ensures forall key :: ComposableField(key, x, y)
    decreases y
  {
    if y.Object? {
      forall key | key in x.fields && key in y.fields ensures ComposableField(key, x.fields[key], y.fields[key]) {
        SameKindsAreComposable(x.fields[key], y.fields[key]);
      }
    }
  }

  /** An empty overlay changes no object, and nothing is lost by merging onto an empty one. */
  lemma EmptyObjectIsNeutral(v: Value)
    requires v.Object?
    ensures Merge(v, Object(map[])) == v
    ensures Merge(Object(map[]), v) == v
  {
    assert Merge(v, Object(map[])).fields == v.fields;
    assert Merge(Object(map[]), v).fields == v.fields;
  }

  // ---------------------------------------------------------------- lookups through a merge

  /** Every document on the way to the path is an object, and what is there, if anything, an array. */
  predicate LeadsToArray(v: Value, path: seq<string>)
    requires path != []
    decreases |path|
  {
    && v.Object?
    && (path[0] in v.fields ==>
          if |path| == 1 then v.fields[path[0]].Array? else LeadsToArray(v.fields[path[0]], path[1..]))
  }

  function ItemsAt(v: Value, path: seq<string>): seq<Value> {
    var found := Lookup(v, path);
    if found.Some? && found.value.Array? then found.value.items else []
  }

  lemma {:induction false} MergePrependsRules(base: Value, overlay: Value, path: seq<string>)
    requires path != [] && path[|path| - 1] == RULES
    requires LeadsToArray(base, path) && LeadsToArray(overlay, path)
    ensures LeadsToArray(Merge(base, overlay), path)
    ensures ItemsAt(Merge(base, overlay), path) == ItemsAt(overlay, path) + ItemsAt(base, path)
    decreases |path|
  {
    var key, rest := path[0], path[1..];
    FieldOfMerge(base, overlay, key);
    if key in base.fields && key in overlay.fields && rest != [] {
      assert rest[|rest| - 1] == RULES;
      MergePrependsRules(base.fields[key], overlay.fields[key], rest);
    } else if key in base.fields && key in overlay.fields {
      var merged := Merge(base, overlay);
      assert Lookup(base, path) == Lookup(base.fields[key], rest) && Lookup(overlay, path) == Lookup(overlay.fields[key], rest);
      assert Lookup(merged, path) == Lookup(merged.fields[key], rest);
    } else if key in overlay.fields {
      assert ItemsAt(overlay, path) + [] == ItemsAt(overlay, path);
    } else {
      assert [] + ItemsAt(base, path) == ItemsAt(base, path);
    }
  }

  /** The overlay does not have the path, and every document it has on the way there is an object. */
  predicate Untouched(overlay: Value, path: seq<string>)
    requires path != []
    decreases |path|
  {
    && overlay.Object?
    && (path[0] in overlay.fields ==> |path| > 1 && Untouched(overlay.fields[path[0]], path[1..]))
  }

  lemma {:induction false} UntouchedIsKept(base: Value, overlay: Value, path: seq<string>)
    requires path != [] && Untouched(overlay, path)
    ensures Lookup(Merge(base, overlay), path) == Lookup(base, path)
    ensures Lookup(overlay, path) == None
    decreases |path|
  {
    var key, rest := path[0], path[1..];
    if base.Object? {
      FieldOfMerge(base, overlay, key);
    }
    if key in overlay.fields {
      UntouchedIsKept(if base.Object? && key in base.fields then base.fields[key] else Null, overlay.fields[key], rest);
    }
  }

  /** Some proper prefix of the path holds a value that is not an object. */
  predicate Blocked(v: Value, path: seq<string>) {
    exists i :: 0 <= i < |path| && Lookup(v, path[..i]).Some? && !Lookup(v, path[..i]).value.Object?
  }

  lemma {:induction false} UntouchedIffNeitherPresentNorBlocked(overlay: Value, path: seq<string>)
    requires path != []
    ensures Untouched(overlay, path) <==> Lookup(overlay, path).None? && !Blocked(overlay, path)
    decreases |path|
  {
    var key, rest := path[0], path[1..];
    if !overlay.Object? {
      assert Lookup(overlay, path[..0]) == Some(overlay);
    } else if key !in overlay.fields {
      forall i | 0 <= i < |path| && Lookup(overlay, path[..i]).Some? ensures Lookup(overlay, path[..i]).value.Object? {
      }
    } else if rest != [] {
      var below := overlay.fields[key];
      UntouchedIffNeitherPresentNorBlocked(below, rest);
      forall i | 0 <= i < |rest| ensures Lookup(overlay, path[..i + 1]) == Lookup(below, rest[..i]) {
        assert path[..i + 1][1..] == rest[..i];
      }
      if Blocked(below, rest) {
        var i :| 0 <= i < |rest| && Lookup(below, rest[..i]).Some? && !Lookup(below, rest[..i]).value.Object?;
        assert Lookup(overlay, path[..i + 1]) == Lookup(below, rest[..i]);
      }
      if Blocked(overlay, path) {
        var i :| 0 <= i < |path| && Lookup(overlay, path[..i]).Some? && !Lookup(overlay, path[..i]).value.Object?;
        assert Lookup(overlay, path[..i]) == Lookup(below, rest[..i - 1]);
      }
    } else {
      forall i | 0 <= i < |path| ensures i == 0 && Lookup(overlay, path[..i]) == Some(overlay) {
      }
    }
  }

  /** What an overlay that touches a path leaves there does not depend on the base being clear of it. */
  lemma {:induction false} TouchedIsDecided(base: Value, overlay: Value, path: seq<string>)
    requires path != [] && !Untouched(overlay, path)
    ensures Lookup(overlay, path).Some? <==> Lookup(Merge(base, overlay), path).Some?
    decreases |path|
  {
    var key, rest := path[0], path[1..];
    if base.Object? && overlay.Object? && key in base.fields && key in overlay.fields {
      FieldOfMerge(base, overlay, key);
      if rest != [] && !(key == RULES && base.fields[key].Array? && overlay.fields[key].Array?) {
        TouchedIsDecided(base.fields[key], overlay.fields[key], rest);
      }
    }
  }

  /** The overlay puts a value at the path that replaces instead of merging. */
  predicate Replaces(overlay: Value, path: seq<string>) {
    && path != []
    && Lookup(overlay, path).Some?
    && !Lookup(overlay, path).value.Object?
    && !(Lookup(overlay, path).value.Array? && path[|path| - 1] == RULES)
  }

  lemma {:induction false} ReplacementWins(base: Value, overlay: Value, path: seq<string>)
    requires Replaces(overlay, path)
    ensures Lookup(Merge(base, overlay), path) == Lookup(overlay, path)
    decreases |path|
  {
    var key, rest := path[0], path[1..];
    assert Lookup(overlay, path) == Lookup(overlay.fields[key], rest);
    if base.Object? {
      FieldOfMerge(base, overlay, key);
    }
    if base.Object? && key in base.fields && rest != [] {
      assert rest[|rest| - 1] == path[|path| - 1];
      ReplacementWins(base.fields[key], overlay.fields[key], rest);
    }
  }

  /** Over anything but an array, or nothing, a `rules` array of the overlay is what the result has. */
  lemma {:induction false} RulesReplaceWhatIsNoArray(base: Value, overlay: Value, path: seq<string>)
    requires path != [] && path[|path| - 1] == RULES
    requires Lookup(overlay, path).Some? && Lookup(overlay, path).value.Array?
    requires Lookup(base, path).Some? ==> !Lookup(base, path).value.Array?
    ensures Lookup(Merge(base, overlay), path) == Lookup(overlay, path)
    decreases |path|
  {
    var key, rest := path[0], path[1..];
    assert Lookup(overlay, path) == Lookup(overlay.fields[key], rest);
    if base.Object? {
      FieldOfMerge(base, overlay, key);
    }
    if base.Object? && key in base.fields {
      assert Lookup(base, path) == Lookup(base.fields[key], rest);
      var merged := Merge(base, overlay);
      assert Lookup(merged, path) == Lookup(merged.fields[key], rest);
    }
    if base.Object? && key in base.fields && rest != [] {
      assert rest[|rest| - 1] == path[|path| - 1];
      RulesReplaceWhatIsNoArray(base.fields[key], overlay.fields[key], rest);
    }
  }
}
