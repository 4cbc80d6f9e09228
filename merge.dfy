/** `vite.config.js`: the build-time merge of `manual_overrides.json` into
    `advisories.json` (`deepMerge`, the override lookup by id, the combined
    list) and the validate-or-fail gate in front of the export. JSON values
    are those `JSON.parse` returns. */
module Merge {
  import opened Wrappers
  import opened Json
  import opened Text
  import Schema

  /** The ways the build step fails: a `TypeError` thrown by JavaScript (a
      property read on `null`, `.map` on a non-array) and the `Error` thrown
      when the merged list fails the schema. */
  datatype BuildError = TypeError | ValidationFailed

  // ------------------------------------------------------------ object spread

  /** The items of an array under the index keys "0", "1", ... */
  function ArraySpread(items: seq<Json>): map<string, Json>
  {
    if |items| == 0 then map[]
    else ArraySpread(items[..|items| - 1])[NatToString(|items| - 1) := items[|items| - 1]]
  }

  /** The characters of a string, as one-character strings, under the index
      keys. */
  function StringSpread(s: string): map<string, Json>
  {
    if |s| == 0 then map[]
    else StringSpread(s[..|s| - 1])[NatToString(|s| - 1) := JString([s[|s| - 1]])]
  }

  /** The own enumerable properties of a value, as `{...v}` and
      `Object.keys(v)` see them: an object its fields, an array its items
      and a string its characters under the index keys "0", "1", ...; any
      other value has none. */
  function Spread(v: Json): map<string, Json>
  {
    match v
    case JObject(f) => f
    case JArray(items) => ArraySpread(items)
    case JString(s) => StringSpread(s)
    case _ => map[]
  }

  /** An object spreads to its fields, an array to its items under their
      indices, a string to its characters; nothing else has properties. */
  lemma SpreadProperties(v: Json, i: int)
    ensures v.JObject? ==> Spread(v) == v.fields
    ensures !v.JObject? && !v.JArray? && !v.JString? ==> Spread(v) == map[]
    ensures v.JArray? && 0 <= i < |v.items| ==> NatToString(i) in Spread(v) && Spread(v)[NatToString(i)] == v.items[i]
    ensures v.JString? && 0 <= i < |v.s| ==> NatToString(i) in Spread(v) && Spread(v)[NatToString(i)] == JString([v.s[i]])
  {
    if v.JArray? && 0 <= i < |v.items| {
      ArraySpreadAt(v.items, i);
    }
    if v.JString? && 0 <= i < |v.s| {
      StringSpreadAt(v.s, i);
    }
  }

  /** Every key of an array is one of its indices. */
  lemma {:induction false} ArraySpreadKey(items: seq<Json>, k: string) returns (i: int)
    requires k in ArraySpread(items)
    ensures 0 <= i < |items| && k == NatToString(i)
  {
    var n := |items| - 1;
    if k == NatToString(n) {
      i := n;
    } else {
      i := ArraySpreadKey(items[..n], k);
    }
  }

  lemma {:induction false} ArraySpreadAt(items: seq<Json>, i: int)
    requires 0 <= i < |items|
    ensures NatToString(i) in ArraySpread(items) && ArraySpread(items)[NatToString(i)] == items[i]
  {
    var n := |items| - 1;
    if i < n {
      ArraySpreadAt(items[..n], i);
      if NatToString(i) == NatToString(n) {
        NatToStringInjective(i, n);
      }
    }
  }

  lemma {:induction false} StringSpreadAt(s: string, i: int)
    requires 0 <= i < |s|
    ensures NatToString(i) in StringSpread(s) && StringSpread(s)[NatToString(i)] == JString([s[i]])
  {
    var n := |s| - 1;
    if i < n {
      StringSpreadAt(s[..n], i);
      if NatToString(i) == NatToString(n) {
        NatToStringInjective(i, n);
      }
    }
  }

  /** `v && typeof v === "object" && !Array.isArray(v)`: exactly the objects
      (every object is truthy). */
  predicate Mergeable(v: Json)
  {
    v.JObject?
  }

  /** `result[key] || {}` */
  function OrEmpty(m: map<string, Json>, key: string): (r: Json)
    ensures key in m && JsTruthy(m[key]) ==> r == m[key]
    ensures !(key in m && JsTruthy(m[key])) ==> r == JObject(map[])
  {
    if key in m && JsTruthy(m[key]) then m[key] else JObject(map[])
  }

  // ------------------------------------------------------------ deepMerge

  /** The value `deepMerge(target, source)` returns. */
  function Merge(target: Json, source: Json): map<string, Json>
  {
    MergeInto(Spread(target), Spread(source))
  }

  /** The merge of the properties `s` of a source into the properties `t` of
      a target. Each key of the source is handled once and only reads and
      writes its own entry, so the order of `Object.keys` does not matter
      and the result is stated key by key. */
  function MergeInto(t: map<string, Json>, s: map<string, Json>): map<string, Json>
    decreases JObject(s)
  {
    map k | k in t.Keys + s.Keys ::
      if k !in s then t[k]
      else if Mergeable(s[k]) then JObject(MergeInto(Spread(OrEmpty(t, k)), s[k].fields))
      else s[k]
  }

  /** `deepMerge` (lines 85-99): a copy of the target, then for every key of
      the source either a recursive merge into `result[key] || {}` or a
      plain assignment. */
  method DeepMerge(target: Json, source: Json) returns (result: map<string, Json>)
    ensures result == Merge(target, source)
    decreases JObject(Spread(source)), 1
  {
    ghost var t := Spread(target);
    ghost var m := Merge(target, source);
    result := Spread(target);
    var s := Spread(source);
    var todo := s.Keys;
    MergeKeys(target, source);
    while todo != {}
      invariant todo <= s.Keys
      invariant Partial(t, m, s.Keys, todo, result)
      decreases todo
    {
      var key :| key in todo;
      var value := MergeKey(target, source, key, result);
      PartialStep(t, m, s.Keys, todo, result, key, value);
      result := result[key := value];
      todo := todo - {key};
    }
    PartialDone(t, m, s.Keys, result);
  }

  /** The loop body of `deepMerge` for one key of the source (lines 88-96),
      with `result[key]` still the target's value. */
  method MergeKey(target: Json, source: Json, key: string, result: map<string, Json>) returns (value: Json)
    requires key in Spread(source)
    requires OrEmpty(result, key) == OrEmpty(Spread(target), key)
    ensures key in Merge(target, source) && Merge(target, source)[key] == value
    decreases JObject(Spread(source)), 0
  {
    var v := Spread(source)[key];
    if Mergeable(v) {
      var merged := DeepMerge(OrEmpty(result, key), v);
      value := JObject(merged);
    } else {
      value := v;
    }
    MergeAt(target, source, key, result, value);
  }

  /** A map after the keys of `keys` outside `todo` have taken their values
      in `m` and every other key still has its value in `t`. */
  ghost predicate Partial<K, V>(t: map<K, V>, m: map<K, V>, keys: set<K>, todo: set<K>, result: map<K, V>)
  {
    result.Keys == t.Keys + (keys - todo)
    && forall k :: k in result ==>
         if k in keys && k !in todo then k in m && result[k] == m[k] else k in t && result[k] == t[k]
  }

  lemma PartialStep<K, V>(t: map<K, V>, m: map<K, V>, keys: set<K>, todo: set<K>, result: map<K, V>, key: K, value: V)
    requires Partial(t, m, keys, todo, result) && key in todo && todo <= keys
    requires key in m && m[key] == value
    ensures Partial(t, m, keys, todo - {key}, result[key := value])
  {
  }

  lemma PartialDone<K, V>(t: map<K, V>, m: map<K, V>, keys: set<K>, result: map<K, V>)
    requires Partial(t, m, keys, {}, result)
    requires m.Keys == t.Keys + keys
    requires forall k :: k in m && k !in keys ==> m[k] == t[k]
    ensures result == m
  {
  }

  /** The value of one source key in the merge, computed from the still
      untouched entry of the result. */
  lemma MergeAt(target: Json, source: Json, key: string, result: map<string, Json>, value: Json)
    requires key in Spread(source)
    requires OrEmpty(result, key) == OrEmpty(Spread(target), key)
    requires var v := Spread(source)[key];
      value == if Mergeable(v) then JObject(Merge(OrEmpty(result, key), v)) else v
    ensures key in Merge(target, source) && Merge(target, source)[key] == value
  {
  }

  // ------------------------------------------------------------ properties

  /** The result has the target's keys and the source's keys, and a key the
      source does not have keeps the target's value. */
  lemma MergeKeys(target: Json, source: Json)
    ensures Merge(target, source).Keys == Spread(target).Keys + Spread(source).Keys
    ensures forall k :: k in Merge(target, source) && k !in Spread(source) ==> Merge(target, source)[k] == Spread(target)[k]
  {
  }

  /** A source value that is not a plain object (an array, a string, a
      number, a boolean, `null`) replaces the target's value wholesale. */
  lemma MergeReplaces(target: Json, source: Json, k: string)
    requires k in Spread(source) && !Mergeable(Spread(source)[k])
    ensures Merge(target, source)[k] == Spread(source)[k]
  {
  }

  /** A source value that is an object is merged into the target's value
      when that is truthy and into `{}` otherwise. */
  lemma MergeRecurses(target: Json, source: Json, k: string)
    requires k in Spread(source) && Mergeable(Spread(source)[k])
    ensures Merge(target, source)[k] == JObject(Merge(OrEmpty(Spread(target), k), Spread(source)[k]))
  {
  }

  /** With a source in which nothing is an object, the merge is the shallow
      override `{...target, ...source}`. */
  lemma ShallowWhenFlat(target: Json, source: Json)
    requires forall k :: k in Spread(source) ==> !Mergeable(Spread(source)[k])
    ensures Merge(target, source) == Spread(target) + Spread(source)
  {
  }

  /** Merging the same source a second time changes nothing. */
  lemma MergeIdempotent(target: Json, source: Json)
    ensures Merge(JObject(Merge(target, source)), source) == Merge(target, source)
  {
    MergeIntoIdempotent(Spread(target), Spread(source));
  }

  lemma {:induction false} MergeIntoIdempotent(t: map<string, Json>, s: map<string, Json>)
    ensures MergeInto(MergeInto(t, s), s) == MergeInto(t, s)
    decreases JObject(s)
  {
    var m := MergeInto(t, s);
    var m2 := MergeInto(m, s);
    assert m2.Keys == m.Keys;
    forall k | k in m2 ensures m2[k] == m[k] {
      if k in s && Mergeable(s[k]) {
        var inner := MergeInto(Spread(OrEmpty(t, k)), s[k].fields);
        assert m[k] == JObject(inner);
        assert JsTruthy(m[k]) && OrEmpty(m, k) == m[k];
        MergeIntoIdempotent(Spread(OrEmpty(t, k)), s[k].fields);
      }
    }
  }

  /** Merging an empty override keeps the target's own properties. */
  lemma MergeEmpty(target: Json)
    ensures Merge(target, JObject(map[])) == Spread(target)
  {
  }

  // ------------------------------------------------------------ the override map

  /** A map key as `Map` compares it (SameValueZero); `None` is
      `undefined`. Arrays and objects from `JSON.parse` are distinct
      references and never equal another key. */
  predicate SameKey(a: Option<Json>, b: Option<Json>)
  {
    a == b && (a.Some? ==> !a.value.JArray? && !a.value.JObject?)
  }

  /** `o.id`: a `TypeError` on `null`, the `id` field of an object, and
      `undefined` for every other value. */
  function IdOf(o: Json): (r: Result<Option<Json>, BuildError>)
    ensures r.Err? <==> o == JNull
    ensures r.Ok? && r.value.Some? ==> o.JObject? && "id" in o.fields && r.value.value == o.fields["id"]
  {
    match o
    case JNull => Err(TypeError)
    case JObject(f) => Ok(if "id" in f then Some(f["id"]) else None)
    case _ => Ok(None)
  }

  /** `overrides.map(o => [o.id, o])`. */
  function OverrideEntries(overrides: seq<Json>): (r: Result<seq<(Option<Json>, Json)>, BuildError>)
    ensures r.Err? <==> exists i :: 0 <= i < |overrides| && overrides[i] == JNull
    ensures r.Err? ==> r.error == TypeError
    ensures r.Ok? ==> |r.value| == |overrides|
    ensures r.Ok? ==> forall i :: 0 <= i < |overrides| ==> r.value[i] == (IdOf(overrides[i]).value, overrides[i])
  {
    if |overrides| == 0 then Ok([])
    else
      var id :- IdOf(overrides[0]);
      var rest :- OverrideEntries(overrides[1..]);
      assert forall i :: 1 <= i < |overrides| ==> overrides[i] == overrides[1..][i - 1];
      Ok([(id, overrides[0])] + rest)
  }

  /** `overridesMap.get(id)` on the `Map` built from the entries: a later
      entry with the same key overwrites an earlier one. */
  function Lookup(entries: seq<(Option<Json>, Json)>, id: Option<Json>): Option<Json>
  {
    if |entries| == 0 then None
    else if SameKey(entries[|entries| - 1].0, id) then Some(entries[|entries| - 1].1)
    else Lookup(entries[..|entries| - 1], id)
  }

  /** The lookup finds nothing exactly when no entry has the key. */
  lemma {:induction false} LookupNone(entries: seq<(Option<Json>, Json)>, id: Option<Json>)
    ensures Lookup(entries, id).None? <==> forall i :: 0 <= i < |entries| ==> !SameKey(entries[i].0, id)
    decreases |entries|
  {
    if |entries| > 0 {
      var n := |entries| - 1;
      var init := entries[..n];
      LookupNone(init, id);
      assert forall i :: 0 <= i < n ==> init[i] == entries[i];
    }
  }

  /** What the lookup finds is the value of the last entry with the key. */
  lemma {:induction false} LookupFound(entries: seq<(Option<Json>, Json)>, id: Option<Json>) returns (i: nat)
    requires Lookup(entries, id).Some?
    ensures i < |entries| && SameKey(entries[i].0, id) && Lookup(entries, id) == Some(entries[i].1)
    ensures forall j :: i < j < |entries| ==> !SameKey(entries[j].0, id)
    decreases |entries|
  {
    var n := |entries| - 1;
    if SameKey(entries[n].0, id) {
      i := n;
    } else {
      var init := entries[..n];
      i := LookupFound(init, id);
      assert init[i] == entries[i];
    }
  }

  // ------------------------------------------------------------ the combined list

  /** One advisory after the override step (lines 35-42): merged with its
      override when the lookup finds a truthy one, unchanged otherwise. */
  function CombineOne(entries: seq<(Option<Json>, Json)>, advisory: Json): Result<Json, BuildError>
  {
    var id :- IdOf(advisory);
    var o := Lookup(entries, id);
    if o.Some? && JsTruthy(o.value) then Ok(JObject(Merge(advisory, o.value))) else Ok(advisory)
  }

  /** `advisories.map(...)`: the first `TypeError` stops it. */
  function CombineAll(entries: seq<(Option<Json>, Json)>, advisories: seq<Json>): (r: Result<seq<Json>, BuildError>)
    ensures r.Err? <==> exists i :: 0 <= i < |advisories| && advisories[i] == JNull
    ensures r.Err? ==> r.error == TypeError
    ensures r.Ok? ==> |r.value| == |advisories|
    ensures r.Ok? ==> forall i :: 0 <= i < |advisories| ==> CombineOne(entries, advisories[i]) == Ok(r.value[i])
  {
    if |advisories| == 0 then Ok([])
    else
      var first :- CombineOne(entries, advisories[0]);
      var rest :- CombineAll(entries, advisories[1..]);
      assert forall i :: 1 <= i < |advisories| ==> advisories[i] == advisories[1..][i - 1];
      Ok([first] + rest)
  }

  /** The combined list keeps the length and the order of the advisories;
      an advisory whose id matches no truthy override comes through
      unchanged, and one that matches is merged with the last override that
      has its id. */
  lemma CombinedShape(entries: seq<(Option<Json>, Json)>, advisories: seq<Json>, combined: seq<Json>, i: int)
    requires CombineAll(entries, advisories) == Ok(combined)
    requires 0 <= i < |advisories|
    ensures |combined| == |advisories|
    ensures var id := IdOf(advisories[i]).value;
      (forall n :: 0 <= n < |entries| ==> !SameKey(entries[n].0, id)) ==> combined[i] == advisories[i]
    ensures var id := IdOf(advisories[i]).value;
      Lookup(entries, id).Some? && !JsTruthy(Lookup(entries, id).value) ==> combined[i] == advisories[i]
    ensures var id := IdOf(advisories[i]).value;
      Lookup(entries, id).Some? && JsTruthy(Lookup(entries, id).value) ==>
        combined[i] == JObject(Merge(advisories[i], Lookup(entries, id).value))
  {
    var id := IdOf(advisories[i]).value;
    assert CombineOne(entries, advisories[i]) == Ok(combined[i]);
    LookupNone(entries, id);
  }

  // ------------------------------------------------------------ the load hook

  /** `load` for the virtual module (lines 28-53), from the two parsed
      files: the override map, the combined list, then the schema gate.
      `Ok` is the list that is exported. */
  function Load(advisories: Json, overrides: Json, isUrl: string -> bool): (r: Result<seq<Json>, BuildError>)
  {
    if !overrides.JArray? then Err(TypeError)
    else
      var entries :- OverrideEntries(overrides.items);
      if !advisories.JArray? then Err(TypeError)
      else
        var combined :- CombineAll(entries, advisories.items);
        if !Schema.AdvisoriesOk(JArray(combined), isUrl) then Err(ValidationFailed) else Ok(combined)
  }

  /** The build exports a list exactly when both files are lists without a
      `null` entry and the combined list passes the schema; what it exports
      then is the combined list, and every entry of it is a valid advisory. */
  lemma LoadGate(advisories: Json, overrides: Json, isUrl: string -> bool)
    requires advisories.JArray? && overrides.JArray?
    requires forall i :: 0 <= i < |overrides.items| ==> overrides.items[i] != JNull
    requires forall i :: 0 <= i < |advisories.items| ==> advisories.items[i] != JNull
    ensures var entries := OverrideEntries(overrides.items).value;
      var combined := CombineAll(entries, advisories.items).value;
      (Load(advisories, overrides, isUrl).Ok? <==> Schema.AdvisoriesOk(JArray(combined), isUrl))
      && (Load(advisories, overrides, isUrl).Ok? ==> Load(advisories, overrides, isUrl).value == combined)
      && (Load(advisories, overrides, isUrl).Err? ==> Load(advisories, overrides, isUrl).error == ValidationFailed)
  {
  }

  /** A `null` entry in either file, or a file that is not a list, fails the
      build with a `TypeError` before validation. */
  lemma LoadTypeErrors(advisories: Json, overrides: Json, isUrl: string -> bool)
    requires !advisories.JArray? || !overrides.JArray?
      || (exists i :: 0 <= i < |overrides.items| && overrides.items[i] == JNull)
      || (exists i :: 0 <= i < |advisories.items| && advisories.items[i] == JNull)
    ensures Load(advisories, overrides, isUrl) == Err(TypeError)
  {
  }
}
