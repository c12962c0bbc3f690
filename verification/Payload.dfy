/** Scrubbing and verifying whole structures. A path of indices leads into arrays and objects; the laws
    speak of what stands at the end of every path. */
module Payload {
  import opened Text
  import opened SecretPatterns
  import opened AssignmentCleaning
  import opened Scrubber
  import opened Expressions
  import opened LineJoins
  import opened Wrappers

  /** A JSON value; `Other` stands for numbers, booleans and null, by their spelling. */
  datatype Json =
    | Str(text: string)
    | Arr(items: seq<Json>)
    | Obj(fields: seq<Field>)
    | Other(literal: string)

  datatype Field = Field(key: string, value: Json)

  // ----- scrubbing -----

  function ScrubDeep(v: Json): Json
    decreases v, 0
  {
    match v
    case Str(text) => Str(Scrub(text))
    case Arr(items) => Arr(ScrubItems(items))
    case Obj(fields) => Obj(ScrubFields(fields))
    case Other(_) => v
  }

  function ScrubItems(items: seq<Json>): seq<Json>
    decreases items, 1
  {
    if items == [] then [] else [ScrubDeep(items[0])] + ScrubItems(items[1..])
  }

  function ScrubFields(fields: seq<Field>): seq<Field>
    decreases fields, 1
  {
    if fields == [] then [] else [Field(fields[0].key, ScrubDeep(fields[0].value))] + ScrubFields(fields[1..])
  }

  /** What a path leads to: the items of arrays and the values of objects, by position. */
  function At(v: Json, path: seq<nat>): Option<Json>
    decreases |path|
  {
    if path == [] then Some(v)
    else
      match v
      case Arr(items) => if path[0] < |items| then At(items[path[0]], path[1..]) else None
      case Obj(fields) => if path[0] < |fields| then At(fields[path[0]].value, path[1..]) else None
      case _ => None
  }

  /** A path starts at the value itself and goes on into every item of an array and every value of an
      object, and into nothing else. */
  lemma PathsLead(v: Json, i: nat, path: seq<nat>)
    ensures At(v, []) == Some(v)
    ensures v.Arr? && i < |v.items| ==> At(v, [i] + path) == At(v.items[i], path)
    ensures v.Obj? && i < |v.fields| ==> At(v, [i] + path) == At(v.fields[i].value, path)
    ensures v.Str? || v.Other? ==> At(v, [i] + path) == None
  {
    assert ([i] + path)[1..] == path;
  }

  lemma {:induction false} ScrubbedItemAt(items: seq<Json>, i: nat)
    requires i < |items|
    ensures |ScrubItems(items)| == |items| && ScrubItems(items)[i] == ScrubDeep(items[i])
    decreases |items|
  {
    hide ScrubDeep;
    if |items| > 1 {
      ScrubbedItemAt(items[1..], if i == 0 then 0 else i - 1);
    }
  }

  lemma {:induction false} ScrubbedFieldAt(fields: seq<Field>, i: nat)
    requires i < |fields|
    ensures |ScrubFields(fields)| == |fields|
    ensures ScrubFields(fields)[i] == Field(fields[i].key, ScrubDeep(fields[i].value))
    decreases |fields|
  {
    hide ScrubDeep;
    if |fields| > 1 {
      ScrubbedFieldAt(fields[1..], if i == 0 then 0 else i - 1);
    }
  }

  /** Two values of one shape: the same keys in the same order, as many items, the same numbers; and a
      string where the other has that string scrubbed. */
  predicate IsScrubbedNode(v: Json, s: Json) {
    match v
    case Str(text) => s == Str(Scrub(text))
    case Arr(items) => s.Arr? && |s.items| == |items|
    case Obj(fields) => s.Obj? && |s.fields| == |fields| && forall i :: 0 <= i < |fields| ==> s.fields[i].key == fields[i].key
    case Other(literal) => s == Other(literal)
  }

  lemma ScrubbedNode(v: Json)
    ensures IsScrubbedNode(v, ScrubDeep(v))
  {
    hide Scrub;
    match v
    case Str(_) =>
    case Arr(items) =>
      if items != [] {
        ScrubbedItemAt(items, 0);
      }
    case Obj(fields) =>
      if fields != [] {
        ScrubbedFieldAt(fields, 0);
      }
      forall i | 0 <= i < |fields| ensures ScrubDeep(v).fields[i].key == fields[i].key {
        ScrubbedFieldAt(fields, i);
      }
    case Other(_) =>
  }

  /** A scrubbed structure has the paths of the structure, and at the end of each the same node, with
      strings scrubbed: no key, no number and no shape is touched. */
  lemma {:induction false} ScrubDeepAt(v: Json, path: seq<nat>)
    ensures At(v, path).None? <==> At(ScrubDeep(v), path).None?
    ensures At(v, path).Some? ==> IsScrubbedNode(At(v, path).value, At(ScrubDeep(v), path).value)
    decreases |path|
  {
    hide Scrub, IsScrubbedNode;
    ScrubbedNode(v);
    if path != [] {
      var i := path[0];
      match v
      case Arr(items) =>
        if i < |items| {
          ScrubbedItemAt(items, i);
          ScrubDeepAt(items[i], path[1..]);
        } else if items != [] {
          ScrubbedItemAt(items, 0);
        }
      case Obj(fields) =>
        if i < |fields| {
          ScrubbedFieldAt(fields, i);
          ScrubDeepAt(fields[i].value, path[1..]);
        } else if fields != [] {
          ScrubbedFieldAt(fields, 0);
        }
      case _ =>
    }
  }

  // ----- searching -----

  /** Some path leads to a string in which the verifier finds `name`. */
  ghost predicate ShownIn(v: Json, name: string) {
    exists path: seq<nat>, text: string :: ShownAt(v, path, text, name)
  }

  ghost predicate ShownAt(v: Json, path: seq<nat>, text: string, name: string) {
    At(v, path) == Some(Str(text)) && name in Survivors(Patterns(), text)
  }

  lemma ShownInText(text: string, name: string)
    ensures ShownIn(Str(text), name) <==> name in Survivors(Patterns(), text)
  {
    hide Survivors, Patterns;
    if name in Survivors(Patterns(), text) {
      assert ShownAt(Str(text), [], text, name);
    }
  }

  lemma ShownInOther(literal: string, name: string)
    ensures !ShownIn(Other(literal), name)
  {
    hide Survivors, Patterns;
  }

  lemma ShownInItems(items: seq<Json>, name: string)
    ensures ShownIn(Arr(items), name) <==> exists i :: 0 <= i < |items| && ShownIn(items[i], name)
  {
    hide Survivors, Patterns;
    if path: seq<nat>, text: string :| ShownAt(Arr(items), path, text, name) {
      assert ShownAt(items[path[0]], path[1..], text, name);
    }
    if i :| 0 <= i < |items| && ShownIn(items[i], name) {
      var path: seq<nat>, text: string :| ShownAt(items[i], path, text, name);
      assert ([i] + path)[1..] == path;
      assert ShownAt(Arr(items), [i] + path, text, name);
    }
  }

  lemma ShownInFields(fields: seq<Field>, name: string)
    ensures ShownIn(Obj(fields), name) <==> exists i :: 0 <= i < |fields| && ShownIn(fields[i].value, name)
  {
    hide Survivors, Patterns;
    if path: seq<nat>, text: string :| ShownAt(Obj(fields), path, text, name) {
      assert ShownAt(fields[path[0]].value, path[1..], text, name);
    }
    if i :| 0 <= i < |fields| && ShownIn(fields[i].value, name) {
      var path: seq<nat>, text: string :| ShownAt(fields[i].value, path, text, name);
      assert ([i] + path)[1..] == path;
      assert ShownAt(Obj(fields), [i] + path, text, name);
    }
  }

  /** `findSecretsDeep`: the walk adds to one set what the verifier finds in each string a path leads to,
      and nothing else. */
  method Walk(v: Json, hits: set<string>) returns (all: set<string>)
    ensures forall name :: name in all <==> name in hits || ShownIn(v, name)
    decreases v
  {
    hide ShownIn;
    all := hits;
    match v {
      case Str(text) =>
        var names := FindSecrets(text);
        for i := 0 to |names|
          invariant forall name :: name in all <==> name in hits || name in names[..i]
        {
          all := all + {names[i]};
        }
        forall name ensures ShownIn(v, name) <==> name in names {
          ShownInText(text, name);
        }
      case Arr(items) =>
        for i := 0 to |items|
          invariant forall name :: name in all <==> name in hits || exists j :: 0 <= j < i && ShownIn(items[j], name)
        {
          all := Walk(items[i], all);
        }
        forall name ensures ShownIn(v, name) <==> exists j :: 0 <= j < |items| && ShownIn(items[j], name) {
          ShownInItems(items, name);
        }
      case Obj(fields) =>
        for i := 0 to |fields|
          invariant forall name :: name in all <==> name in hits || exists j :: 0 <= j < i && ShownIn(fields[j].value, name)
        {
          all := Walk(fields[i].value, all);
        }
        forall name ensures ShownIn(v, name) <==> exists j :: 0 <= j < |fields| && ShownIn(fields[j].value, name) {
          ShownInFields(fields, name);
        }
      case Other(literal) =>
        forall name ensures !ShownIn(v, name) {
          ShownInOther(literal, name);
        }
    }
  }

  // ----- searching what was scrubbed -----

  /** Some string of the structure holds a quote that heals in the last pass. */
  ghost predicate SomeHeals(v: Json) {
    exists path: seq<nat>, text: string :: HealsAt(v, path, text)
  }

  ghost predicate HealsAt(v: Json, path: seq<nat>, text: string) {
    At(v, path) == Some(Str(text)) && !HealingFree(false, KeyPasses(text))
  }

  /** After scrubbing, the verifier finds at most assignments in a structure, and finds them exactly when
      some string of the structure holds a quote that heals. */
  lemma VerifierOnScrubbedStructure(v: Json, name: string)
    ensures ShownIn(ScrubDeep(v), name) <==> name == "env-assignment" && SomeHeals(v)
  {
    hide ScrubDeep, Survivors, Patterns, Scrub, KeyPasses, HealingFree, At;
    if path: seq<nat>, text: string :| ShownAt(ScrubDeep(v), path, text, name) {
      ScrubDeepAt(v, path);
      var raw := At(v, path).value.text;
      VerifierOnScrubbed(raw);
      assert HealsAt(v, path, raw);
    }
    if path: seq<nat>, text: string :| name == "env-assignment" && HealsAt(v, path, text) {
      ScrubDeepAt(v, path);
      VerifierOnScrubbed(text);
      assert ShownAt(ScrubDeep(v), path, Scrub(text), name);
    }
  }

  /** In the words of the strings themselves: nothing is found when in no string an assignment that opens
      a quote has one behind it that runs over a newline. */
  lemma ScrubbedStructureIsSilent(v: Json, name: string)
    requires forall path: seq<nat>, text: string :: At(v, path) == Some(Str(text)) ==> NoQuoteThenJoin(false, text)
    ensures !ShownIn(ScrubDeep(v), name)
  {
    VerifierOnScrubbedStructure(v, name);
    hide ScrubDeep, KeyPasses, HealingFree, At, NoQuoteThenJoin, ShownIn;
    if path: seq<nat>, text: string :| HealsAt(v, path, text) {
      KeyPassesHealNothing(text);
    }
  }
}
