/** JSON Merge Patch (RFC 7396): applying a patch, generating one, and when the two are inverse. */
module MergePatch {
  import opened Basics
  import opened Json
  import opened JsonCompare
  import opened JsonList

  // ---------------------------------------------------------------- the standard, on trees

  function FieldsOf(t: Option<Tree>): map<string, Tree> {
    if t.Some? && t.value.TObj? then t.value.fields else map[]
  }

  /** MergePatch of section 2 of RFC 7396; a missing target is undefined. */
  function Merged(target: Option<Tree>, patch: Tree): Tree
    decreases patch, 1
  {
    if patch.TObj? then TObj(MergedFields(FieldsOf(target), patch)) else patch
  }

  function MergedFields(target: map<string, Tree>, patch: Tree): map<string, Tree>
    requires patch.TObj?
    decreases patch, 0
  {
    map k | k in target.Keys + patch.fields.Keys && !(k in patch.fields && patch.fields[k] == TNull) ::
      if k in patch.fields then Merged(Get(target, k), patch.fields[k]) else target[k]
  }

  /** The patch between two trees; none when both are objects and nothing differs. */
  function Difference(from: Tree, goal: Tree): Option<Tree>
    decreases goal, 1
  {
    if from.TObj? && goal.TObj? then
      var p := DifferentFields(from.fields, goal);
      if p == map[] then None else Some(TObj(p))
    else Some(goal)
  }

  function DifferentFields(from: map<string, Tree>, goal: Tree): map<string, Tree>
    requires goal.TObj?
    decreases goal, 0
  {
    map k | k in from.Keys + goal.fields.Keys && Get(from, k) != Get(goal.fields, k) ::
      if k !in goal.fields then TNull
      else if k !in from then goal.fields[k]
      else
        var d := Difference(from[k], goal.fields[k]);
        if d.None? then TNull else d.value
  }

  /** No null is reachable through object members alone. */
  ghost predicate NoNullMembers(t: Tree) {
    t.TObj? ==> forall k :: k in t.fields ==> t.fields[k] != TNull && NoNullMembers(t.fields[k])
  }

  /** Whether a merge patch can turn one tree into the other: a null member of the target tree must
      already be there, since in a patch it means removal. */
  ghost predicate Expressible(from: Tree, goal: Tree) {
    if from.TObj? && goal.TObj? then
      forall k :: k in goal.fields ==>
        || Get(from.fields, k) == Some(goal.fields[k])
        || (goal.fields[k] != TNull
            && if k in from.fields then Expressible(from.fields[k], goal.fields[k])
               else NoNullMembers(goal.fields[k]))
    else NoNullMembers(goal)
  }

  /** Without an object to merge into, a patch yields itself exactly when it has no null member. */
  lemma {:induction false} MergeIntoNothing(target: Option<Tree>, t: Tree)
    requires FieldsOf(target) == map[]
    ensures Merged(target, t) == t <==> NoNullMembers(t)
    decreases t
  {
    if t.TObj? {
      var merged := MergedFields(map[], t);
      forall k | k in t.fields
        ensures Get(merged, k) == Some(t.fields[k]) <==> t.fields[k] != TNull && NoNullMembers(t.fields[k])
      {
        MergeIntoNothing(None, t.fields[k]);
      }
      SameByGet(merged, t.fields);
    }
  }

  lemma SameByGet(a: map<string, Tree>, b: map<string, Tree>)
    ensures a == b <==> a.Keys <= b.Keys && forall k :: k in b ==> Get(a, k) == Some(b[k])
  {
    if a.Keys <= b.Keys && forall k :: k in b ==> Get(a, k) == Some(b[k]) {
      forall k | k in b ensures k in a && a[k] == b[k] {
        assert Get(a, k) == Some(b[k]);
      }
    }
  }

  /** No patch is produced exactly for two equal objects. */
  lemma NoPatchIffEqual(from: Tree, goal: Tree)
    ensures Difference(from, goal).None? <==> from == goal && from.TObj?
  {
    if from.TObj? && goal.TObj? {
      var p := DifferentFields(from.fields, goal);
      if p == map[] {
        forall k | k in from.fields.Keys + goal.fields.Keys ensures Get(from.fields, k) == Get(goal.fields, k) {
          assert k !in p;
        }
        forall k | k in goal.fields ensures Get(from.fields, k) == Some(goal.fields[k]) {
          assert k in from.fields.Keys + goal.fields.Keys;
        }
        forall k | k in from.fields ensures k in goal.fields {
          assert Get(from.fields, k) == Get(goal.fields, k);
        }
        SameByGet(from.fields, goal.fields);
      }
    }
  }

  /** Merging the generated patch gives the target tree exactly when it is expressible. */
  lemma {:induction false} MergeOfDifference(from: Tree, goal: Tree)
    requires Difference(from, goal).Some?
    ensures Merged(Some(from), Difference(from, goal).value) == goal <==> Expressible(from, goal)
    decreases goal
  {
    if from.TObj? && goal.TObj? {
      var p := DifferentFields(from.fields, goal);
      var merged := MergedFields(from.fields, TObj(p));
      assert merged.Keys <= goal.fields.Keys;
      forall k | k in goal.fields
        ensures Get(merged, k) == Some(goal.fields[k]) <==>
          || Get(from.fields, k) == Some(goal.fields[k])
          || (goal.fields[k] != TNull
              && if k in from.fields then Expressible(from.fields[k], goal.fields[k])
                 else NoNullMembers(goal.fields[k]))
      {
        if Get(from.fields, k) == Some(goal.fields[k]) {
          assert k !in p;
        } else if k in from.fields {
          NoPatchIffEqual(from.fields[k], goal.fields[k]);
          MergeOfDifference(from.fields[k], goal.fields[k]);
        } else {
          MergeIntoNothing(None, goal.fields[k]);
        }
      }
      SameByGet(merged, goal.fields);
    } else if goal.TObj? {
      MergeIntoNothing(Some(from), goal);
    }
  }

  /** A target without nulls, reached through members alone, can be expressed from anywhere. */
  lemma {:induction false} NullFreeIsExpressible(from: Tree, goal: Tree)
    requires NoNullMembers(goal)
    ensures Expressible(from, goal)
    decreases goal
  {
    if from.TObj? && goal.TObj? {
      forall k | k in goal.fields && k in from.fields ensures Expressible(from.fields[k], goal.fields[k]) {
        NullFreeIsExpressible(from.fields[k], goal.fields[k]);
      }
    }
  }

  // ---------------------------------------------------------------- merge_patch

  lemma SameMaps(a: map<string, Tree>, b: map<string, Tree>)
    requires forall k :: Get(a, k) == Get(b, k)
    ensures a == b
  {
    forall k | k in a ensures k in b && a[k] == b[k] { assert Get(a, k) == Get(b, k); }
    forall k | k in b ensures k in a { assert Get(a, k) == Get(b, k); }
  }

  /** The rules of section 2 of RFC 7396, key by key. */
  lemma MergedAt(target: map<string, Tree>, p: map<string, Tree>, k: string)
    ensures Get(MergedFields(target, TObj(p)), k) ==
            match Get(p, k)
            case None => Get(target, k)
            case Some(v) => if v == TNull then None else Some(Merged(Get(target, k), v))
  {
    hide Merged;
  }

  lemma StandardInner()
    ensures Merged(Some(TObj(map["d" := TStr("e"), "f" := TStr("g")])), TObj(map["f" := TNull]))
         == TObj(map["d" := TStr("e")])
  {
    assert MergedFields(map["d" := TStr("e"), "f" := TStr("g")], TObj(map["f" := TNull])) == map["d" := TStr("e")];
  }

  /** The example of section 1 of RFC 7396. */
  lemma StandardExample()
    ensures var target := TObj(map["a" := TStr("b"), "c" := TObj(map["d" := TStr("e"), "f" := TStr("g")])]);
            var patch := TObj(map["a" := TStr("z"), "c" := TObj(map["f" := TNull])]);
            Merged(Some(target), patch) == TObj(map["a" := TStr("z"), "c" := TObj(map["d" := TStr("e")])])
  {
    var inner, change := TObj(map["d" := TStr("e"), "f" := TStr("g")]), TObj(map["f" := TNull]);
    StandardInner();
    var fields, edits := map["a" := TStr("b"), "c" := inner], map["a" := TStr("z"), "c" := change];
    var goal := map["a" := TStr("z"), "c" := TObj(map["d" := TStr("e")])];
    assert Merged(Some(TStr("b")), TStr("z")) == TStr("z");
    hide Merged, MergedFields;
    forall k ensures Get(MergedFields(fields, TObj(edits)), k) == Get(goal, k) {
      MergedAt(fields, edits, k);
    }
    SameMaps(MergedFields(fields, TObj(edits)), goal);
    WholeMerge(fields, edits);
  }

  lemma WholeMerge(fields: map<string, Tree>, edits: map<string, Tree>)
    ensures Merged(Some(TObj(fields)), TObj(edits)) == TObj(MergedFields(fields, TObj(edits)))
  {
  }

  lemma MergedSnoc(target: map<string, Tree>, p: map<string, Tree>, k: string, v: Tree)
    requires k !in p
    ensures Get(MergedFields(target, TObj(p)), k) == Get(target, k)
    ensures MergedFields(target, TObj(p[k := v])) ==
            if v == TNull then MergedFields(target, TObj(p)) - {k}
            else MergedFields(target, TObj(p))[k := Merged(Get(target, k), v)]
  {
    hide Merged, MergedFields;
    MergedAt(target, p, k);
    var d := MergedFields(target, TObj(p));
    var d' := if v == TNull then d - {k} else d[k := Merged(Get(target, k), v)];
    forall x ensures Get(MergedFields(target, TObj(p[k := v])), x) == Get(d', x) {
      MergedAt(target, p, x);
      MergedAt(target, p[k := v], x);
    }
    SameMaps(MergedFields(target, TObj(p[k := v])), d');
  }

  lemma PrefixFields(members: seq<Member>, i: nat)
    requires DistinctKeys(members) && i < |members|
    ensures var k := Fold(members[i].key);
            k !in Fields(members[..i]) && Fields(members[..i + 1]) == Fields(members[..i])[k := Meaning(members[i].val)]
  {
    var k := Fold(members[i].key);
    FieldsKeys(members[..i], k);
    FieldsAppend(members[..i], members[i]);
    assert members[..i + 1] == members[..i] + [members[i]];
  }

  // ---------------------------------------------------------------- the code, on any values

  /** What merge_patch makes of a target, whatever the keys are. */
  function MergedValue(target: Option<Json>, patch: Json): Json
    decreases Size(patch), 1
  {
    if !patch.Obj? then patch
    else Obj(MergedMembers(if target.Some? && target.value.Obj? then target.value.members else [], patch.members))
  }

  /** The loop over the members of a patch, which may repeat keys: a fold over them, in order. */
  function MergedMembers(target: seq<Member>, patch: seq<Member>): seq<Member>
    decreases Size(Obj(patch)), 0, |patch|
  {
    if patch == [] then target else
      SizeOfFirst(patch);
      MergedMembers(MergedMember(target, patch[0]), patch[1..])
  }

  /** One member: null removes, anything else is merged into the detached member and added again. */
  function MergedMember(target: seq<Member>, m: Member): seq<Member>
    decreases Size(m.val), 2
  {
    var rest := Without(target, m.key);
    if m.val.Null? then rest else rest + [Member(m.key, MergedValue(Item(Obj(target), m.key), m.val))]
  }

  lemma SizeOfFirst(members: seq<Member>)
    requires members != []
    ensures Size(members[0].val) < Size(Obj(members)) && Size(Obj(members[1..])) < Size(Obj(members))
  {
  }

  /** What the target has become after some members of the patch. */
  ghost predicate MergedSoFar(start: seq<Member>, patch: seq<Member>, i: nat, members: seq<Member>) {
    && i <= |patch| && WellFormed(Obj(members))
    && Fields(members) == MergedFields(Fields(start), TObj(Fields(patch[..i])))
  }

  lemma MergeStarts(start: seq<Member>, patch: seq<Member>)
    requires WellFormed(Obj(start))
    ensures MergedSoFar(start, patch, 0, start)
  {
    assert patch[..0] == [];
    forall x ensures Get(MergedFields(Fields(start), TObj(map[])), x) == Get(Fields(start), x) {
      MergedAt(Fields(start), map[], x);
    }
    SameMaps(MergedFields(Fields(start), TObj(map[])), Fields(start));
  }

  /** One member brings the merge one member further. */
  lemma {:induction false} MemberMerges(start: seq<Member>, patch: seq<Member>, i: nat, members: seq<Member>)
    requires WellFormed(Obj(start)) && WellFormed(Obj(patch)) && i < |patch|
    requires MergedSoFar(start, patch, i, members)
    ensures MergedSoFar(start, patch, i + 1, MergedMember(members, patch[i]))
    decreases Size(patch[i].val), 2
  {
    hide Meaning, Fold, Merged, Size, Fields, MergedFields, Without, Item, MergedValue;
    var child := patch[i];
    PrefixFields(patch, i);
    MergedSnoc(Fields(start), Fields(patch[..i]), Fold(child.key), Meaning(child.val));
    MeaningOfNull(child.val);
    WithoutMeans(members, child.key);
    if !child.val.Null? {
      var item := Item(Obj(members), child.key);
      ValueMerges(item, child.val);
      AddedMeans(Without(members, child.key), child.key, MergedValue(item, child.val));
    }
  }

  lemma {:induction false} MembersMerge(start: seq<Member>, patch: seq<Member>, i: nat, members: seq<Member>)
    requires i <= |patch|
    requires WellFormed(Obj(start)) && WellFormed(Obj(patch)) && MergedSoFar(start, patch, i, members)
    ensures MergedSoFar(start, patch, |patch|, MergedMembers(members, patch[i..]))
    decreases Size(Obj(patch)), 0, |patch| - i
  {
    hide MergedSoFar, Size, MergedMember;
    if i < |patch| {
      assert patch[i..][1..] == patch[i + 1..];
      SizeOfMember(patch, patch[i]);
      SizeOfObject(patch);
      MemberMerges(start, patch, i, members);
      MembersMerge(start, patch, i + 1, MergedMember(members, patch[i]));
    } else {
      assert patch[i..] == [];
    }
  }

  /** On distinct keys the code computes MergePatch of section 2 of RFC 7396. */
  lemma {:induction false} ValueMerges(target: Option<Json>, patch: Json)
    requires (target.Some? ==> WellFormed(target.value)) && WellFormed(patch)
    ensures WellFormed(MergedValue(target, patch))
    ensures Meaning(MergedValue(target, patch)) == Merged(MeaningOf(target), Meaning(patch))
    decreases Size(patch), 1
  {
    if patch.Obj? {
      var start := if target.Some? && target.value.Obj? then target.value.members else [];
      MergeStarts(start, patch.members);
      MembersMerge(start, patch.members, 0, start);
      assert patch.members[0..] == patch.members && patch.members[..|patch.members|] == patch.members;
    }
  }

  // ---------------------------------------------------------------- the code as it runs

  /** merge_patch: a null patch node copies nothing, anything but an object replaces the target, and
      object members are removed, or detached, merged and added again. */
  method ApplyMergePatch(target: Option<Json>, patch: Option<Json>) returns (r: Option<Json>)
    ensures patch.None? ==> r.None?
    ensures patch.Some? ==> r == Some(MergedValue(target, patch.value))
    ensures patch.Some? && WellFormed(patch.value) && (target.Some? ==> WellFormed(target.value)) ==>
              WellFormed(r.value) && Meaning(r.value) == Merged(MeaningOf(target), Meaning(patch.value))
    decreases if patch.Some? then Size(patch.value) else 0, 1
  {
    hide Merged, Meaning;
    if patch.Some? && WellFormed(patch.value) && (target.Some? ==> WellFormed(target.value)) {
      ValueMerges(target, patch.value);
    }
    if patch.None? || !patch.value.Obj? { return patch; }
    var start := if target.Some? && target.value.Obj? then target.value.members else [];
    var members := MergeMembers(start, patch.value.members);
    r := Some(Obj(members));
  }

  /** The loop over the members of the patch. */
  method MergeMembers(start: seq<Member>, patch: seq<Member>) returns (members: seq<Member>)
    ensures members == MergedMembers(start, patch)
    ensures WellFormed(Obj(start)) && WellFormed(Obj(patch)) ==>
              WellFormed(Obj(members)) && Fields(members) == MergedFields(Fields(start), TObj(Fields(patch)))
    decreases Size(Obj(patch)), 0
  {
    hide Size, MergedMember;
    members := start;
    var i := 0;
    assert patch[0..] == patch && patch[..|patch|] == patch;
    if WellFormed(Obj(start)) && WellFormed(Obj(patch)) {
      MergeStarts(start, patch);
      MembersMerge(start, patch, 0, start);
    }
    while i < |patch|
      invariant 0 <= i <= |patch| && MergedMembers(members, patch[i..]) == MergedMembers(start, patch)
    {
      assert patch[i..][1..] == patch[i + 1..];
      SizeOfMember(patch, patch[i]);
      SizeOfObject(patch);
      members := MergeMember(members, patch[i]);
      i := i + 1;
    }
  }

  /** One member of the patch: null removes, anything else is merged into the detached member. */
  method MergeMember(members: seq<Member>, child: Member) returns (next: seq<Member>)
    ensures next == MergedMember(members, child)
    decreases Size(child.val), 2
  {
    hide Meaning, Fold, Merged, Size, Fields, MergedFields, Without, Item, MergedValue;
    var item;
    next, item := DetachMember(members, child.key);
    if !child.val.Null? {
      var replacement := ApplyMergePatch(item, Some(child.val));
      next := AddMember(next, child.key, replacement.value);
    }
  }

  lemma MeaningOfNull(j: Json)
    ensures Meaning(j) == TNull <==> j.Null?
  {
  }

  lemma SizeOfObject(members: seq<Member>)
    ensures Size(Obj(members)) == 1 + SizeMembers(members)
  {
  }

  // ---------------------------------------------------------------- generate_merge_patch

  /** Comparing with case and without gives the same order. */
  predicate Alike(k: string, l: string) {
    && (CompareStrings(k, l) == 0 <==> CompareKeys(k, l) == 0)
    && (CompareStrings(k, l) < 0 <==> CompareKeys(k, l) < 0)
  }

  /** The generator sorts without case but compares keys with strcmp. On these objects the two agree: every
      key of the one is in the same order to every key of the other, and so on below common keys. */
  ghost predicate SameOrder(from: Json, goal: Json)
    decreases from
  {
    from.Obj? && goal.Obj? ==>
      forall m, n :: m in from.members && n in goal.members ==>
        Alike(m.key, n.key) && (Fold(m.key) == Fold(n.key) ==> SameOrder(m.val, n.val))
  }

  /** Keys without upper-case letters, in every object reached through members. */
  ghost predicate LowerKeys(j: Json) {
    j.Obj? ==> forall i :: 0 <= i < |j.members| ==>
      Fold(j.members[i].key) == j.members[i].key && LowerKeys(j.members[i].val)
  }

  /** Lower-case keys are in the same order either way. */
  lemma {:induction false} LowerIsSameOrder(from: Json, goal: Json)
    requires LowerKeys(from) && LowerKeys(goal)
    ensures SameOrder(from, goal)
    decreases from
  {
    if from.Obj? && goal.Obj? {
      forall m, n | m in from.members && n in goal.members
        ensures Alike(m.key, n.key) && SameOrder(m.val, n.val)
      {
        LowerIsSameOrder(m.val, n.val);
      }
    }
  }

  lemma DifferentAt(from: map<string, Tree>, goal: map<string, Tree>, k: string)
    ensures Get(DifferentFields(from, TObj(goal)), k) ==
            if Get(from, k) == Get(goal, k) then None
            else if k !in goal then Some(TNull)
            else if k !in from then Some(goal[k])
            else Difference(from[k], goal[k])
  {
    if k in from && k in goal { NoPatchIffEqual(from[k], goal[k]); }
    hide Difference;
  }

  lemma DifferenceFirst(from: map<string, Tree>, goal: map<string, Tree>, k: string, v: Tree)
    requires k !in from && k !in goal
    ensures k !in DifferentFields(from, TObj(goal))
    ensures DifferentFields(from[k := v], TObj(goal)) == DifferentFields(from, TObj(goal))[k := TNull]
    ensures DifferentFields(from, TObj(goal[k := v])) == DifferentFields(from, TObj(goal))[k := v]
  {
    hide Difference, DifferentFields;
    DifferentAt(from, goal, k);
    var d := DifferentFields(from, TObj(goal));
    var a, a' := DifferentFields(from[k := v], TObj(goal)), d[k := TNull];
    forall x ensures Get(a, x) == Get(a', x) {
      DifferentAt(from, goal, x);
      DifferentAt(from[k := v], goal, x);
    }
    SameMaps(a, a');
    var b, b' := DifferentFields(from, TObj(goal[k := v])), d[k := v];
    forall x ensures Get(b, x) == Get(b', x) {
      DifferentAt(from, goal, x);
      DifferentAt(from, goal[k := v], x);
    }
    SameMaps(b, b');
  }

  lemma DifferenceBoth(from: map<string, Tree>, goal: map<string, Tree>, k: string, u: Tree, v: Tree)
    requires k !in from && k !in goal
    ensures u != v ==> Difference(u, v).Some?
    ensures DifferentFields(from[k := u], TObj(goal[k := v])) ==
            if u == v then DifferentFields(from, TObj(goal))
            else DifferentFields(from, TObj(goal))[k := Difference(u, v).value]
  {
    NoPatchIffEqual(u, v);
    hide Difference, DifferentFields;
    var d := DifferentFields(from, TObj(goal));
    var d' := if u == v then d else d[k := Difference(u, v).value];
    forall x ensures Get(DifferentFields(from[k := u], TObj(goal[k := v])), x) == Get(d', x) {
      DifferentAt(from, goal, x);
      DifferentAt(from[k := u], goal[k := v], x);
    }
    SameMaps(DifferentFields(from[k := u], TObj(goal[k := v])), d');
  }

  function AddIfAny(patch: seq<Member>, key: string, item: Option<Json>): seq<Member> {
    if item.None? then patch else patch + [Member(key, item.value)]
  }

  /** What generate_merge_patch builds, whatever the keys. */
  function Generated(from: Json, goal: Json): Option<Json>
    decreases Size(from), 1
  {
    if !goal.Obj? || !from.Obj? then Some(goal) else
      SortKeepsMembers(from.members);
      var patch := Walked(SortMembers(from.members), SortMembers(goal.members), 0, 0, from.members);
      if patch == [] then None else Some(Obj(patch))
  }

  /** The two cursors at i and j: the lists are sorted without case, but the keys compared with it. */
  function Walked(s: seq<Member>, t: seq<Member>, i: nat, j: nat, ghost members: seq<Member>): seq<Member>
    requires i <= |s| && j <= |t| && forall m :: m in s ==> m in members
    decreases SizeMembers(members), 3, |s| - i + |t| - j
  {
    if i == |s| && j == |t| then []
    else
      var diff := if i == |s| then 1 else if j == |t| then -1 else CompareStrings(s[i].key, t[j].key);
      if diff < 0 then [Member(s[i].key, Null)] + Walked(s, t, i + 1, j, members)
      else if diff > 0 then [t[j]] + Walked(s, t, i, j + 1, members)
      else
        assert s[i] in s;
        SizeOfMember(members, s[i]);
        AddIfAny([], t[j].key, Nested(s[i].val, t[j].val)) + Walked(s, t, i + 1, j + 1, members)
  }

  /** The patch for a common member; none for equal values. */
  function Nested(from: Json, goal: Json): Option<Json>
    decreases Size(from), 2
  {
    if Meaning(from) == Meaning(goal) then None else Generated(from, goal)
  }

  /** generate_merge_patch. */
  method GenerateMergePatch(from: Json, goal: Json) returns (r: Option<Json>)
    requires WellFormed(from) && WellFormed(goal)
    ensures r == Generated(from, goal)
    ensures SameOrder(from, goal) ==>
              MeaningOf(r) == Difference(Meaning(from), Meaning(goal)) && (r.Some? ==> WellFormed(r.value))
    decreases Size(from), 1
  {
    if !goal.Obj? || !from.Obj? { return Some(goal); }
    var patch := GenerateMembers(from.members, goal.members);
    EmptyFields(patch);
    r := if patch == [] then None else Some(Obj(patch));
  }

  lemma EmptyFields(members: seq<Member>)
    ensures Fields(members) == map[] <==> members == []
  {
    if members != [] {
      assert Fold(members[0].key) in Fields(members);
    }
  }

  /** What the patch holds when the cursors stand at i and j. */
  ghost predicate PatchSoFar(s: seq<Member>, t: seq<Member>, i: nat, j: nat, patch: seq<Member>) {
    && InStep(s, t, i, j) && WellFormed(Obj(patch))
    && Fields(patch) == DifferentFields(Fields(s[..i]), TObj(Fields(t[..j])))
  }

  /** A key only the first list has: a removal is added. */
  lemma PatchRemoves(s: seq<Member>, t: seq<Member>, i: nat, j: nat, patch: seq<Member>)
    requires Sorted(s) && Sorted(t) && PatchSoFar(s, t, i, j, patch) && i < |s|
    requires j < |t| ==> CompareKeys(s[i].key, t[j].key) < 0
    ensures PatchSoFar(s, t, i + 1, j, patch + [Member(s[i].key, Null)])
  {
    hide Fold, CompareKeys, Fields, DifferentFields;
    NextKeyIsNew(s, t, i, j);
    StepFirst(s, t, i, j);
    DifferenceFirst(Fields(s[..i]), Fields(t[..j]), Fold(s[i].key), Meaning(s[i].val));
    assert Meaning(Null) == TNull && WellFormed(Null);
    FieldsAppend(patch, Member(s[i].key, Null));
  }

  /** A key only the second list has: its member is added. */
  lemma PatchAdds(s: seq<Member>, t: seq<Member>, i: nat, j: nat, patch: seq<Member>)
    requires Sorted(s) && Sorted(t) && PatchSoFar(s, t, i, j, patch) && j < |t| && WellFormed(t[j].val)
    requires i < |s| ==> CompareKeys(t[j].key, s[i].key) < 0
    ensures PatchSoFar(s, t, i, j + 1, patch + [t[j]])
  {
    hide Meaning, Fold, CompareKeys, Fields, DifferentFields;
    InStepFlips(s, t, i, j);
    NextKeyIsNew(t, s, j, i);
    StepFirst(t, s, j, i);
    InStepFlips(s, t, i, j + 1);
    DifferenceFirst(Fields(s[..i]), Fields(t[..j]), Fold(t[j].key), Meaning(t[j].val));
    FieldsAppend(patch, t[j]);
  }

  /** A key both lists have: nothing is added for equal values, the nested patch otherwise. */
  lemma PatchNests(s: seq<Member>, t: seq<Member>, i: nat, j: nat, patch: seq<Member>, nested: Option<Json>)
    requires Sorted(s) && Sorted(t) && PatchSoFar(s, t, i, j, patch) && i < |s| && j < |t|
    requires CompareKeys(s[i].key, t[j].key) == 0
    requires if Meaning(s[i].val) == Meaning(t[j].val) then nested.None?
             else MeaningOf(nested) == Difference(Meaning(s[i].val), Meaning(t[j].val))
    requires nested.Some? ==> WellFormed(nested.value)
    ensures PatchSoFar(s, t, i + 1, j + 1, AddIfAny(patch, t[j].key, nested))
  {
    hide Meaning, Fold, CompareKeys, Fields, DifferentFields, Difference;
    CompareKeysSign(s[i].key, t[j].key);
    var k := Fold(s[i].key);
    NextKeyIsNew(s, t, i, j);
    InStepFlips(s, t, i, j);
    NextKeyIsNew(t, s, j, i);
    StepBoth(s, t, i, j);
    DifferenceFirst(Fields(s[..i]), Fields(t[..j]), k, Meaning(s[i].val));
    DifferenceBoth(Fields(s[..i]), Fields(t[..j]), k, Meaning(s[i].val), Meaning(t[j].val));
    if nested.Some? { FieldsAppend(patch, Member(t[j].key, nested.value)); }
  }

  /** The patch between two member lists, which are sorted first. */
  method GenerateMembers(from: seq<Member>, goal: seq<Member>) returns (patch: seq<Member>)
    requires WellFormed(Obj(from)) && WellFormed(Obj(goal))
    ensures (forall m :: m in SortMembers(from) ==> m in from)
            && patch == Walked(SortMembers(from), SortMembers(goal), 0, 0, from)
    ensures SameOrder(Obj(from), Obj(goal)) ==>
              WellFormed(Obj(patch)) && Fields(patch) == DifferentFields(Fields(from), TObj(Fields(goal)))
    decreases Size(Obj(from)), 0
  {
    hide Meaning, Fold, Size, Fields;
    var s, t := SortMembers(from), SortMembers(goal);
    SortKeepsFields(from);
    SortKeepsFields(goal);
    SortKeepsMembers(from);
    SortKeepsMembers(goal);
    SizeOfObject(from);
    patch := WalkMembers(s, t, from);
  }

  /** The two-cursor loop over the sorted member lists. */
  method WalkMembers(s: seq<Member>, t: seq<Member>, ghost members: seq<Member>) returns (patch: seq<Member>)
    requires Sorted(s) && Sorted(t) && WellFormed(Obj(s)) && WellFormed(Obj(t))
    requires forall m :: m in s ==> m in members
    ensures patch == Walked(s, t, 0, 0, members)
    ensures SameOrder(Obj(s), Obj(t)) ==>
              WellFormed(Obj(patch)) && Fields(patch) == DifferentFields(Fields(s), TObj(Fields(t)))
    decreases SizeMembers(members), 3
  {
    hide Meaning, Fold, CompareKeys, CompareStrings, Difference, Size, SizeMembers, Walked, Nested, SameOrder;
    patch := [];
    var i, j := 0, 0;
    ghost var alike := SameOrder(Obj(s), Obj(t));
    assert s[..0] == [] && t[..0] == [];
    while i < |s| || j < |t|
      invariant 0 <= i <= |s| && 0 <= j <= |t|
      invariant patch + Walked(s, t, i, j, members) == Walked(s, t, 0, 0, members)
      invariant alike ==> PatchSoFar(s, t, i, j, patch)
      decreases |s| - i + |t| - j
    {
      hide PatchSoFar, Sorted;
      var diff := if i == |s| then 1 else if j == |t| then -1 else CompareStrings(s[i].key, t[j].key);
      if alike { StrcmpAlike(s, t, i, j); }
      WalkedStep(s, t, i, j, members, patch);
      if diff < 0 {
        if alike { PatchRemoves(s, t, i, j, patch); }
        patch := patch + [Member(s[i].key, Null)];
        i := i + 1;
      } else if diff > 0 {
        if alike { PatchAdds(s, t, i, j, patch); }
        patch := patch + [t[j]];
        j := j + 1;
      } else {
        assert s[i] in s;
        SizeOfMember(members, s[i]);
        var nested := NestedPatch(s[i].val, t[j].val);
        if alike { PatchNests(s, t, i, j, patch, nested); }
        patch := AddIfAny(patch, t[j].key, nested);
        i, j := i + 1, j + 1;
      }
    }
    assert s[..i] == s && t[..j] == t;
    WalkedStep(s, t, i, j, members, patch);
  }

  /** What one turn of the loop adds comes before what the later turns add. */
  lemma WalkedStep(s: seq<Member>, t: seq<Member>, i: nat, j: nat, members: seq<Member>, patch: seq<Member>)
    requires i <= |s| && j <= |t| && forall m :: m in s ==> m in members
    ensures patch + Walked(s, t, i, j, members) ==
            if i == |s| && j == |t| then patch else
              var diff := if i == |s| then 1 else if j == |t| then -1 else CompareStrings(s[i].key, t[j].key);
              if diff < 0 then patch + [Member(s[i].key, Null)] + Walked(s, t, i + 1, j, members)
              else if diff > 0 then patch + [t[j]] + Walked(s, t, i, j + 1, members)
              else AddIfAny(patch, t[j].key, Nested(s[i].val, t[j].val)) + Walked(s, t, i + 1, j + 1, members)
  {
    hide CompareStrings, Nested;
  }

  /** The patch for one common member, if it is not identical. */
  method NestedPatch(from: Json, goal: Json) returns (nested: Option<Json>)
    requires WellFormed(from) && WellFormed(goal)
    ensures nested == Nested(from, goal)
    ensures SameOrder(from, goal) ==>
              (nested.Some? ==> WellFormed(nested.value))
              && if Meaning(from) == Meaning(goal) then nested.None?
                 else MeaningOf(nested) == Difference(Meaning(from), Meaning(goal))
    decreases Size(from), 2
  {
    var identical := CompareJson(from, goal);
    if identical { return None; }
    nested := GenerateMergePatch(from, goal);
  }

  lemma StrcmpAlike(s: seq<Member>, t: seq<Member>, i: nat, j: nat)
    requires SameOrder(Obj(s), Obj(t))
    ensures i < |s| && j < |t| ==>
              && Alike(s[i].key, t[j].key)
              && (CompareKeys(s[i].key, t[j].key) > 0 ==> CompareKeys(t[j].key, s[i].key) < 0)
              && (CompareKeys(s[i].key, t[j].key) == 0 ==> SameOrder(s[i].val, t[j].val))
  {
    if i < |s| && j < |t| {
      CompareKeysSign(s[i].key, t[j].key);
      assert s[i] in Obj(s).members && t[j] in Obj(t).members;
    }
  }

  // ---------------------------------------------------------------- generating, then merging

  /** Whether generating a merge patch and merging it leads from one tree to the other: there must be a
      patch, and it must be able to express the target. */
  ghost predicate Mergeable(from: Tree, goal: Tree) {
    Expressible(from, goal) && !(from == goal && goal.TObj?)
  }

  /** cJSONUtils_GenerateMergePatch, and cJSONUtils_MergePatch on a copy of the first value. */
  method DiffThenMerge(from: Json, goal: Json) returns (r: Option<Json>)
    requires WellFormed(from) && WellFormed(goal)
    ensures var patch := Generated(from, goal);
            r == if patch.None? then None else Some(MergedValue(Some(from), patch.value))
    ensures SameOrder(from, goal) ==>
              && (r.Some? && Meaning(r.value) == Meaning(goal) <==> Mergeable(Meaning(from), Meaning(goal)))
              && (r.None? <==> Meaning(from) == Meaning(goal) && goal.Obj?)
              && (NoNullMembers(Meaning(goal)) && r.Some? ==> Meaning(r.value) == Meaning(goal))
  {
    hide Meaning, Merged, MergedValue, Difference, Expressible, NoNullMembers, Generated, SameOrder;
    var patch := GenerateMergePatch(from, goal);
    r := ApplyMergePatch(Some(from), patch);
    NoPatchIffEqual(Meaning(from), Meaning(goal));
    ObjectMeansFields(goal);
    if patch.Some? && SameOrder(from, goal) {
      MergeOfDifference(Meaning(from), Meaning(goal));
      if NoNullMembers(Meaning(goal)) { NullFreeIsExpressible(Meaning(from), Meaning(goal)); }
    }
  }

  lemma ObjectMeansFields(j: Json)
    ensures j.Obj? <==> Meaning(j).TObj?
  {
  }

  /** A member that is null cannot be added: in a patch it means removal. */
  lemma NullMemberIsLost()
    ensures var from, goal := TObj(map[]), TObj(map["a" := TNull]);
            && !Mergeable(from, goal)
            && Difference(from, goal) == Some(goal) && Merged(Some(from), goal) == from
  {
    var from, goal := TObj(map[]), TObj(map["a" := TNull]);
    assert DifferentFields(map[], goal) == map["a" := TNull];
    assert "a" in goal.fields;
    assert MergedFields(map[], goal) == map[];
  }

  /** Between equal objects there is no patch, and merging none leaves nothing of the target. */
  lemma EqualObjectsAreLost()
    ensures !Mergeable(TObj(map[]), TObj(map[])) && Expressible(TObj(map[]), TObj(map[]))
    ensures Difference(TObj(map[]), TObj(map[])) == None
  {
    assert DifferentFields(map[], TObj(map[])) == map[];
  }

  /** With an upper-case key the generator loses its place. From {"a":1,"B":1} to {"B":1}, "B" comes before
      "a" for strcmp but behind it in the sorted lists: the patch sets B, and then removes a and B. */
  lemma MixedCasePatch()
    ensures var a, b := Member("a", Num(1)), Member("B", Num(1));
            Generated(Obj([a, b]), Obj([b])) == Some(Obj([b, Member("a", Null), Member("B", Null)]))
  {
    var a, b := Member("a", Num(1)), Member("B", Num(1));
    var s, t := [a, b], [b];
    assert Fold("a") == "a" && Fold("B") == "b";
    assert CompareKeys("a", "B") == -1;
    assert SortMembers(s) == s && SortMembers(t) == t;
    assert CompareStrings("a", "B") > 0;
    assert Walked(s, t, 2, 1, s) == [];
    assert Walked(s, t, 1, 1, s) == [Member("B", Null)];
    assert Walked(s, t, 0, 1, s) == [Member("a", Null), Member("B", Null)];
    assert Walked(s, t, 0, 0, s) == [b, Member("a", Null), Member("B", Null)];
  }

  /** Setting B detaches it and adds it again; the nulls then remove both. */
  lemma MixedCaseSteps()
    ensures var a, b := Member("a", Num(1)), Member("B", Num(1));
            && MergedMember([a, b], b) == [a, b]
            && MergedMember([a, b], Member("a", Null)) == [b]
            && MergedMember([b], Member("B", Null)) == []
  {
    var a, b := Member("a", Num(1)), Member("B", Num(1));
    MixedCaseKeys();
    hide Fold, Find;
    FindIs([a, b], "B", 1);
    FindIs([a, b], "a", 0);
    FindIs([b], "B", 0);
    assert [a, b][..1] + [a, b][2..] == [a];
    assert [a, b][..0] + [a, b][1..] == [b];
    assert [b][..0] + [b][1..] == [];
  }

  lemma MixedCaseKeys()
    ensures Fold("a") == "a" && Fold("B") == "b"
  {
  }

  lemma MixedCaseMerge()
    ensures var a, b := Member("a", Num(1)), Member("B", Num(1));
            MergedMembers([a, b], [b, Member("a", Null), Member("B", Null)]) == []
  {
    var a, b := Member("a", Num(1)), Member("B", Num(1));
    var noA, noB := Member("a", Null), Member("B", Null);
    MixedCaseSteps();
    hide MergedMember;
    assert [b, noA, noB][1..] == [noA, noB] && [noA, noB][1..] == [noB] && [noB][1..] == [];
    assert MergedMembers([b], [noB]) == MergedMembers([], []) == [];
    assert MergedMembers([a, b], [noA, noB]) == MergedMembers([b], [noB]);
  }

  lemma MixedCaseOrder()
    ensures !SameOrder(Obj([Member("a", Num(1)), Member("B", Num(1))]), Obj([Member("B", Num(1))]))
  {
    var a, b := Member("a", Num(1)), Member("B", Num(1));
    assert a in Obj([a, b]).members && b in Obj([b]).members;
    MixedCaseKeys();
    assert CompareStrings("a", "B") > 0 && CompareKeys("a", "B") == -1;
    assert !Alike(a.key, b.key);
  }

  lemma MixedCaseFields()
    ensures var a, b := Member("a", Num(1)), Member("B", Num(1));
            && Fields([b]) == map["b" := TNum(1)] && Fields([a, b]) == map["a" := TNum(1), "b" := TNum(1)]
            && WellFormed(Obj([a, b])) && WellFormed(Obj([b]))
  {
    MixedCaseKeys();
    var a, b := Member("a", Num(1)), Member("B", Num(1));
    assert [a, b][1..] == [b] && [b][1..] == [];
  }

  /** Merging that patch gives {}, and not {"B":1}, although a patch that leads there exists: both members of
      the source are gone. */
  lemma MixedCaseIsLost()
    ensures var from, goal := Obj([Member("a", Num(1)), Member("B", Num(1))]), Obj([Member("B", Num(1))]);
            && WellFormed(from) && WellFormed(goal) && !SameOrder(from, goal)
            && Mergeable(Meaning(from), Meaning(goal))
            && Generated(from, goal).Some?
            && MergedValue(Some(from), Generated(from, goal).value) == Obj([])
            && Meaning(Obj([])) != Meaning(goal)
  {
    MixedCasePatch();
    MixedCaseMerge();
    MixedCaseOrder();
    MixedCaseFields();
    NoFields();
    MixedCaseMergeable();
    hide Generated, MergedMembers, SameOrder, Fields, WellFormed;
    assert "b" in map["b" := TNum(1)];
  }

  lemma MixedCaseMergeable()
    ensures Mergeable(TObj(map["a" := TNum(1), "b" := TNum(1)]), TObj(map["b" := TNum(1)]))
  {
    var from, goal := map["a" := TNum(1), "b" := TNum(1)], map["b" := TNum(1)];
    assert "a" in from && "a" !in goal;
    forall k | k in goal ensures Get(from, k) == Some(goal[k]) {
    }
  }

  lemma NoFields()
    ensures Fields([]) == map[]
  {
  }
}
