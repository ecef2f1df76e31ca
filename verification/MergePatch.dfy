/** JSON merge patch (RFC 7396, section 2). */
module MergePatch {
  import opened Wrappers
  import opened Json

  /** An SQL null or the marker for a JSON null. */
  predicate IsNullish(v: Value) { v == Null || v == JSON_NULL }

  /** The merge as one equation: no loop, no order of members. */
  function Merged(target: Value, patch: Value): Value
    decreases patch
  {
    if !patch.Obj? then patch
    else
      var base := FieldsOf(target);
      Obj(map k | k in base.Keys + patch.fields.Keys && (k in patch.fields ==> !IsNullish(patch.fields[k])) ::
            if k in patch.fields then Merged(if k in base then base[k] else Null, patch.fields[k]) else base[k])
  }

  lemma MergedMember(target: Value, patch: Value, k: string)
    requires patch.Obj?
    ensures Merged(target, patch).Obj?
    ensures k in Merged(target, patch).fields
       <==> if k in patch.fields then !IsNullish(patch.fields[k]) else k in FieldsOf(target)
    ensures k in Merged(target, patch).fields ==>
              Merged(target, patch).fields[k]
              == if k in patch.fields then Merged(if k in FieldsOf(target) then FieldsOf(target)[k] else Null, patch.fields[k])
                 else FieldsOf(target)[k]
  {
  }

  /** The target with the members in `done` already patched. */
  ghost function Partly(target: Value, patch: Value, done: set<string>): map<string, Value>
    requires patch.Obj?
  {
    var base, goal := FieldsOf(target), Merged(target, patch).fields;
    map k | k in base.Keys + goal.Keys && (if k in done then k in goal else k in base) ::
      if k in done then goal[k] else base[k]
  }

  function WithMember(fields: map<string, Value>, k: string, p: Value): map<string, Value> {
    if IsNullish(p) then fields - {k} else fields[k := Merged(if k in fields then fields[k] else Null, p)]
  }

  lemma PartlyStep(target: Value, patch: Value, done: set<string>, k: string)
    requires patch.Obj? && k in patch.fields && k !in done
    ensures WithMember(Partly(target, patch, done), k, patch.fields[k]) == Partly(target, patch, done + {k})
  {
    forall j { MergedMember(target, patch, j); }
    hide Merged, IsNullish;
  }

  lemma {:induction false} PartlyEnds(target: Value, patch: Value)
    requires patch.Obj?
    ensures Partly(target, patch, {}) == FieldsOf(target)
    ensures Merged(target, patch) == Obj(Partly(target, patch, patch.fields.Keys))
  {
    forall j { MergedMember(target, patch, j); }
    hide Merged, IsNullish;
  }

  /** The loop over the patch members, which edits the owned target map. */
  method JsonMergePatchValue(target: Value, patch: Value) returns (result: Value)
    ensures result == Merged(target, patch)
    decreases patch, 1
  {
    if !patch.Obj? { return patch; }
    hide Merged, Partly, WithMember;
    PartlyEnds(target, patch);
    var fields := if target.Obj? then target.fields else map[];
    var todo := patch.fields.Keys;
    ghost var done: set<string> := {};
    while todo != {}
      invariant done !! todo && done + todo == patch.fields.Keys
      invariant fields == Partly(target, patch, done)
      decreases |todo|
    {
      var k :| k in todo;
      PartlyStep(target, patch, done, k);
      fields := MergeMember(fields, k, patch);
      todo, done := todo - {k}, done + {k};
    }
    assert done == patch.fields.Keys;
    result := Obj(fields);
  }

  method MergeMember(target: map<string, Value>, k: string, patch: Value) returns (fields: map<string, Value>)
    requires patch.Obj? && k in patch.fields
    ensures fields == WithMember(target, k, patch.fields[k])
    decreases patch, 0
  {
    var value := patch.fields[k];
    if value == Null || value == JSON_NULL { return target - {k}; }
    var previous := if k in target then target[k] else Null;
    fields := target - {k};
    var merged := JsonMergePatchValue(previous, value);
    fields := fields[k := merged];
  }

  /** Applying one patch twice is applying it once. */
  lemma {:induction false} PatchTwiceIsPatchOnce(target: Value, patch: Value)
    ensures Merged(Merged(target, patch), patch) == Merged(target, patch)
    decreases patch
  {
    if patch.Obj? {
      var once := Merged(target, patch);
      var twice := Merged(once, patch);
      forall k | k in patch.fields && !IsNullish(patch.fields[k])
        ensures twice.fields[k] == once.fields[k]
      {
        PatchTwiceIsPatchOnce(if k in FieldsOf(target) then FieldsOf(target)[k] else Null, patch.fields[k]);
      }
      assert twice.fields == once.fields;
    }
  }

  /** A patch reaches down through objects only: below keys that the patch leaves out, every
      value of the target survives. */
  lemma {:induction false} UnmentionedPathsSurvive(target: Value, patch: Value, path: seq<Token>)
    requires Get(target, path).Some? && Unmentioned(patch, path)
    ensures Get(Merged(target, patch), path) == Get(target, path)
    decreases |path|
  {
    var k := path[0].key;
    if k in patch.fields {
      UnmentionedPathsSurvive(FieldsOf(target)[k], patch.fields[k], path[1..]);
    }
  }

  /** Following `path` through the patch leaves it at a key of an object. */
  predicate Unmentioned(patch: Value, path: seq<Token>)
    decreases |path|
  {
    patch.Obj? && path != [] && path[0].Key?
    && (path[0].key in patch.fields ==> Unmentioned(patch.fields[path[0].key], path[1..]))
  }

  /** Following `path` through the patch ends at a value that is not an object. */
  lemma {:induction false} MentionedPathsAreWritten(target: Value, patch: Value, path: seq<Token>)
    requires path != [] && Get(patch, path).Some? && !Get(patch, path).value.Obj?
    requires forall i :: 0 <= i < |path| ==> path[i].Key?
    ensures Get(Merged(target, patch), path)
         == if IsNullish(Get(patch, path).value) then None else Get(patch, path)
    decreases |path|
  {
    var k := path[0].key;
    var previous := if k in FieldsOf(target) then FieldsOf(target)[k] else Null;
    if |path| == 1 {
      assert path[1..] == [];
    } else {
      assert !IsNullish(patch.fields[k]) by { assert Get(patch.fields[k], path[1..]).Some?; assert patch.fields[k].Obj?; }
      MentionedPathsAreWritten(previous, patch.fields[k], path[1..]);
    }
  }
}
