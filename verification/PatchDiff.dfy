/** The edits create_patches lists for two JSON values, and the proof that they lead from one to the
    other. */
module PatchDiff {
  import opened Basics
  import opened Decimal
  import opened Json
  import opened JsonCompare
  import opened PatchRfc

  /** Keys that need no escaping in a JSON pointer, in every object. */
  ghost predicate PlainKeys(j: Json) {
    match j
    case Arr(items) => forall i :: 0 <= i < |items| ==> PlainKeys(items[i])
    case Obj(members) => forall i :: 0 <= i < |members| ==> PlainToken(members[i].key) && PlainKeys(members[i].val)
    case _ => true
  }

  /** The positions of every array fit into a size_t, as those of any array in memory do. */
  ghost predicate Addressable(j: Json) {
    match j
    case Arr(items) => |items| <= SIZE_LIMIT && forall i :: 0 <= i < |items| ==> Addressable(items[i])
    case Obj(members) => forall i :: 0 <= i < |members| ==> Addressable(members[i].val)
    case _ => true
  }

  predicate PlainToken(token: string) {
    '/' !in token && '~' !in token
  }

  function Whole(goal: Json): seq<Edit> {
    [Edit(Replace, [], goal)]
  }

  /** The edits, relative to the node, that turn one value into another. */
  function Diff(from: Json, goal: Json): seq<Edit>
    decreases Size(from), 1
  {
    match (from, goal)
    case (Num(m), Num(n)) => if m == n then [] else Whole(goal)
    case (Str(s), Str(t)) => if CompareStrings(s, t) == 0 then [] else Whole(goal)
    case (Arr(a), Arr(b)) => DiffItems(a, b, 0)
    case (Obj(a), Obj(b)) =>
      SortKeepsMembers(a);
      DiffMembers(SortMembers(a), SortMembers(b), 0, 0, a)
    case (Null, Null) => []
    case (False, False) => []
    case (True, True) => []
    case _ => Whole(goal)
  }

  /** Common positions first, then removals at one and the same index, or appended elements. */
  function DiffItems(a: seq<Json>, b: seq<Json>, i: nat): seq<Edit>
    decreases SizeAll(a), 2, |a| + |b| - i
  {
    if i < |a| && i < |b| then
      SizeOfItem(a, i);
      Under(ToDecimal(i), Diff(a[i], b[i])) + DiffItems(a, b, i + 1)
    else if i < |a| then RemoveAt(i, |a| - i)
    else if i < |b| then [Edit(Add, ["-"], b[i])] + DiffItems(a, b, i + 1)
    else []
  }

  function RemoveAt(i: nat, count: nat): seq<Edit> {
    if count == 0 then [] else [Edit(Remove, [ToDecimal(i)], Null)] + RemoveAt(i, count - 1)
  }

  /** Two cursors over the sorted member lists; `members` are those of the first, in any order. */
  function DiffMembers(s: seq<Member>, t: seq<Member>, i: nat, j: nat, ghost members: seq<Member>): seq<Edit>
    requires i <= |s| && j <= |t| && forall m :: m in s ==> m in members
    decreases SizeMembers(members), 2, |s| - i + |t| - j
  {
    if i == |s| && j == |t| then []
    else
      var diff := if i == |s| then 1 else if j == |t| then -1 else CompareKeys(s[i].key, t[j].key);
      if diff == 0 then
        assert s[i] in s;
        SizeOfMember(members, s[i]);
        Under(s[i].key, Diff(s[i].val, t[j].val)) + DiffMembers(s, t, i + 1, j + 1, members)
      else if diff < 0 then
        [Edit(Remove, [s[i].key], Null)] + DiffMembers(s, t, i + 1, j, members)
      else
        [Edit(Add, [t[j].key], t[j].val)] + DiffMembers(s, t, i, j + 1, members)
  }

  // ---------------------------------------------------------------- arrays

  /** An array whose first i elements have been brought to their new values. */
  ghost function MixedItems(a: seq<Json>, b: seq<Json>, i: nat): seq<Tree>
    requires i <= |b|
  {
    MeaningAll(b[..i]) + MeaningAll(if i <= |a| then a[i..] else [])
  }

  /** Removing at one index, over and over, cuts the tail off. */
  lemma {:induction false} RemoveAtCuts(front: seq<Tree>, back: seq<Tree>)
    requires |front + back| <= SIZE_LIMIT
    ensures ApplyAllRfc(TArr(front + back), RemoveAt(|front|, |back|)) == Some(TArr(front))
    ensures BelowNode(RemoveAt(|front|, |back|))
    decreases |back|
  {
    if back == [] {
      assert front + back == front;
    } else {
      IndexRfcOfDecimal(|front|);
      assert (front + back)[..|front|] + (front + back)[|front| + 1..] == front + back[1..];
      RemoveAtCuts(front, back[1..]);
    }
  }

  lemma MixedItemsAt(a: seq<Json>, b: seq<Json>, i: nat)
    requires i < |b|
    ensures MeaningAll(b[..i + 1]) == MeaningAll(b[..i]) + [Meaning(b[i])]
  {
    assert b[..i + 1] == b[..i] + [b[i]];
    MeaningAllConcat(b[..i], [b[i]]);
    assert MeaningAll([b[i]]) == [Meaning(b[i])];
  }

  /** A common position: its element becomes the new one. */
  lemma PassItem(a: seq<Json>, b: seq<Json>, i: nat)
    requires i < |a| && i < |b| && |a| <= SIZE_LIMIT
    ensures var now := TArr(MixedItems(a, b, i));
            ChildRfc(now, ToDecimal(i)) == Some(Meaning(a[i]))
            && WithChildRfc(now, ToDecimal(i), Meaning(b[i])) == TArr(MixedItems(a, b, i + 1))
  {
    hide Meaning;
    MixedItemsAt(a, b, i);
    assert a[i..][1..] == a[i + 1..];
    IndexRfcOfDecimal(i);
    assert MixedItems(a, b, i)[i := Meaning(b[i])] == MixedItems(a, b, i + 1);
  }

  /** Past the end of the first array: the new element goes to the end. */
  lemma AppendItem(a: seq<Json>, b: seq<Json>, i: nat)
    requires |a| <= i < |b|
    ensures ApplyAllRfc(TArr(MixedItems(a, b, i)), [Edit(Add, ["-"], b[i])]) == Some(TArr(MixedItems(a, b, i + 1)))
  {
    MixedItemsAt(a, b, i);
    assert i == |a| ==> a[i..] == [];
    assert MixedItems(a, b, i) + [Meaning(b[i])] == MixedItems(a, b, i + 1);
  }

  lemma ItemsDone(a: seq<Json>, b: seq<Json>)
    requires |a| <= |b|
    ensures MixedItems(a, b, |b|) == MeaningAll(b)
  {
    assert b[..|b|] == b;
    assert |a| == |b| ==> a[|b|..] == [];
  }

  lemma NoneLeft(a: seq<Json>, b: seq<Json>)
    requires |b| <= |a|
    ensures MixedItems(a, b, |b|) == MeaningAll(b) + MeaningAll(a[|b|..])
  {
    hide MeaningAll;
    assert b[..|b|] == b;
  }

  /** Past the end of the second array: the rest of the first is removed. */
  lemma CutItems(a: seq<Json>, b: seq<Json>)
    requires |b| < |a| <= SIZE_LIMIT
    ensures ApplyAllRfc(TArr(MixedItems(a, b, |b|)), RemoveAt(|b|, |a| - |b|)) == Some(TArr(MeaningAll(b)))
    ensures BelowNode(RemoveAt(|b|, |a| - |b|))
  {
    hide ApplyAllRfc, RemoveAt, BelowNode, MeaningAll, MixedItems;
    var front, back := MeaningAll(b), MeaningAll(a[|b|..]);
    assert |front| == |b| && |back| == |a| - |b|;
    RemoveAtCuts(front, back);
    NoneLeft(a, b);
  }

  /** One step of the edits and the rest of them. */
  lemma StepThenRest(t: Tree, step: seq<Edit>, u: Tree, rest: seq<Edit>, goal: Tree)
    requires ApplyAllRfc(t, step) == Some(u) && ApplyAllRfc(u, rest) == Some(goal)
    requires BelowNode(step) && BelowNode(rest)
    ensures ApplyAllRfc(t, step + rest) == Some(goal) && BelowNode(step + rest)
  {
    ApplyAllRfcConcat(t, step, rest);
  }

  lemma {:induction false} DiffItemsWorks(a: seq<Json>, b: seq<Json>, i: nat)
    requires WellFormed(Arr(a)) && WellFormed(Arr(b)) && i <= |b|
    requires Addressable(Arr(a)) && Addressable(Arr(b))
    ensures ApplyAllRfc(TArr(MixedItems(a, b, i)), DiffItems(a, b, i)) == Some(TArr(MeaningAll(b)))
    ensures BelowNode(DiffItems(a, b, i))
    decreases SizeAll(a), 2, |a| + |b| - i
  {
    hide ApplyRfc, ApplyAllRfc, Diff, Meaning, MixedItems, ChildRfc, WithChildRfc;
    var now, goal := TArr(MixedItems(a, b, i)), TArr(MeaningAll(b));
    if i < |a| && i < |b| {
      SizeOfItem(a, i);
      DiffWorks(a[i], b[i]);
      PassItem(a, b, i);
      ApplyUnder(now, ToDecimal(i), Diff(a[i], b[i]));
      DiffItemsWorks(a, b, i + 1);
      StepThenRest(now, Under(ToDecimal(i), Diff(a[i], b[i])), TArr(MixedItems(a, b, i + 1)),
                   DiffItems(a, b, i + 1), goal);
    } else if i < |a| {
      CutItems(a, b);
    } else if i < |b| {
      AppendItem(a, b, i);
      DiffItemsWorks(a, b, i + 1);
      StepThenRest(now, [Edit(Add, ["-"], b[i])], TArr(MixedItems(a, b, i + 1)), DiffItems(a, b, i + 1), goal);
    } else {
      ItemsDone(a, b);
      NoEdits(now);
    }
  }

  // ---------------------------------------------------------------- objects

  /** An object in which the keys already passed have their new values. */
  ghost function MixedFields(s: seq<Member>, t: seq<Member>, i: nat, j: nat): map<string, Tree>
    requires i <= |s| && j <= |t|
  {
    Fields(s[i..]) + Fields(t[..j])
  }

  lemma RestLacksKey(s: seq<Member>, i: nat)
    requires Sorted(s) && i < |s|
    ensures Fold(s[i].key) !in Fields(s[i + 1..])
    ensures Fields(s[i..]) == Fields(s[i + 1..])[Fold(s[i].key) := Meaning(s[i].val)]
  {
    hide Fold;
    SortedIsDistinct(s);
    FieldsKeys(s[i + 1..], Fold(s[i].key));
    assert s[i..][1..] == s[i + 1..];
  }

  /** A common key: its member becomes the new one. */
  lemma PassBoth(s: seq<Member>, t: seq<Member>, i: nat, j: nat)
    requires Sorted(s) && Sorted(t) && InStep(s, t, i, j) && i < |s| && j < |t|
    requires CompareKeys(s[i].key, t[j].key) == 0
    ensures InStep(s, t, i + 1, j + 1)
    ensures var now := TObj(MixedFields(s, t, i, j));
            ChildRfc(now, s[i].key) == Some(Meaning(s[i].val))
            && WithChildRfc(now, s[i].key, Meaning(t[j].val)) == TObj(MixedFields(s, t, i + 1, j + 1))
  {
    hide Meaning, Fold, CompareKeys, Fields;
    CompareKeysSign(s[i].key, t[j].key);
    NextKeyIsNew(s, t, i, j);
    InStepFlips(s, t, i, j);
    NextKeyIsNew(t, s, j, i);
    RestLacksKey(s, i);
    StepBoth(s, t, i, j);
    assert MixedFields(s, t, i, j)[Fold(s[i].key) := Meaning(t[j].val)] == MixedFields(s, t, i + 1, j + 1);
  }

  /** A key only the first list has: its member goes. */
  lemma PassFirst(s: seq<Member>, t: seq<Member>, i: nat, j: nat)
    requires Sorted(s) && Sorted(t) && InStep(s, t, i, j) && i < |s|
    requires j < |t| ==> CompareKeys(s[i].key, t[j].key) < 0
    ensures InStep(s, t, i + 1, j)
    ensures ApplyAllRfc(TObj(MixedFields(s, t, i, j)), [Edit(Remove, [s[i].key], Null)]) ==
            Some(TObj(MixedFields(s, t, i + 1, j)))
  {
    hide Meaning, Fold, CompareKeys, ApplyAllRfc, Fields;
    NextKeyIsNew(s, t, i, j);
    RestLacksKey(s, i);
    StepFirst(s, t, i, j);
    assert MixedFields(s, t, i, j) - {Fold(s[i].key)} == MixedFields(s, t, i + 1, j);
    RemoveStep(MixedFields(s, t, i, j), s[i].key);
  }

  /** A key only the second list has: its member is added. */
  lemma PassSecond(s: seq<Member>, t: seq<Member>, i: nat, j: nat)
    requires Sorted(s) && Sorted(t) && InStep(s, t, i, j) && j < |t|
    requires i < |s| ==> CompareKeys(t[j].key, s[i].key) < 0
    ensures InStep(s, t, i, j + 1)
    ensures ApplyAllRfc(TObj(MixedFields(s, t, i, j)), [Edit(Add, [t[j].key], t[j].val)]) ==
            Some(TObj(MixedFields(s, t, i, j + 1)))
  {
    hide Meaning, Fold, CompareKeys, ApplyAllRfc, Fields;
    InStepFlips(s, t, i, j);
    NextKeyIsNew(t, s, j, i);
    StepFirst(t, s, j, i);
    InStepFlips(s, t, i, j + 1);
    assert MixedFields(s, t, i, j)[Fold(t[j].key) := Meaning(t[j].val)] == MixedFields(s, t, i, j + 1);
    AddStep(MixedFields(s, t, i, j), t[j].key, t[j].val);
  }

  lemma RemoveStep(fields: map<string, Tree>, key: string)
    requires Fold(key) in fields
    ensures ApplyAllRfc(TObj(fields), [Edit(Remove, [key], Null)]) == Some(TObj(fields - {Fold(key)}))
  {
  }

  lemma AddStep(fields: map<string, Tree>, key: string, v: Json)
    ensures ApplyAllRfc(TObj(fields), [Edit(Add, [key], v)]) == Some(TObj(fields[Fold(key) := Meaning(v)]))
  {
  }

  lemma {:induction false} DiffMembersWorks(s: seq<Member>, t: seq<Member>, i: nat, j: nat, members: seq<Member>)
    requires Sorted(s) && Sorted(t) && InStep(s, t, i, j)
    requires WellFormed(Obj(s)) && WellFormed(Obj(t)) && forall m :: m in s ==> m in members
    requires Addressable(Obj(s)) && Addressable(Obj(t))
    ensures ApplyAllRfc(TObj(MixedFields(s, t, i, j)), DiffMembers(s, t, i, j, members)) == Some(TObj(Fields(t)))
    ensures BelowNode(DiffMembers(s, t, i, j, members))
    decreases SizeMembers(members), 2, |s| - i + |t| - j
  {
    hide ApplyRfc, ApplyAllRfc, Diff, Meaning, Fold, CompareKeys, Sorted;
    var now, goal := TObj(MixedFields(s, t, i, j)), TObj(Fields(t));
    if i == |s| && j == |t| {
      assert s[i..] == [] && t[..j] == t;
      assert now.fields == Fields(t);
      NoEdits(now);
    } else {
      hide MixedFields;
      var diff := if i == |s| then 1 else if j == |t| then -1 else CompareKeys(s[i].key, t[j].key);
      if diff == 0 {
        PassBoth(s, t, i, j);
        assert s[i] in s;
        SizeOfMember(members, s[i]);
        DiffWorks(s[i].val, t[j].val);
        ApplyUnder(now, s[i].key, Diff(s[i].val, t[j].val));
        DiffMembersWorks(s, t, i + 1, j + 1, members);
        StepThenRest(now, Under(s[i].key, Diff(s[i].val, t[j].val)), TObj(MixedFields(s, t, i + 1, j + 1)),
                     DiffMembers(s, t, i + 1, j + 1, members), goal);
      } else if diff < 0 {
        PassFirst(s, t, i, j);
        DiffMembersWorks(s, t, i + 1, j, members);
        StepThenRest(now, [Edit(Remove, [s[i].key], Null)], TObj(MixedFields(s, t, i + 1, j)),
                     DiffMembers(s, t, i + 1, j, members), goal);
      } else {
        if i < |s| { CompareKeysSign(s[i].key, t[j].key); }
        PassSecond(s, t, i, j);
        DiffMembersWorks(s, t, i, j + 1, members);
        StepThenRest(now, [Edit(Add, [t[j].key], t[j].val)], TObj(MixedFields(s, t, i, j + 1)),
                     DiffMembers(s, t, i, j + 1, members), goal);
      }
    }
  }

  lemma NoEdits(t: Tree)
    ensures ApplyAllRfc(t, []) == Some(t)
  {
  }

  // ---------------------------------------------------------------- the main result

  lemma WholeWorks(t: Tree, goal: Json)
    ensures ApplyAllRfc(t, Whole(goal)) == Some(Meaning(goal)) && BelowNode(Whole(goal))
  {
  }

  lemma SortedIsAddressable(members: seq<Member>)
    requires Addressable(Obj(members))
    ensures Addressable(Obj(SortMembers(members)))
  {
    SortKeepsMembers(members);
    var s := SortMembers(members);
    forall i | 0 <= i < |s| ensures Addressable(s[i].val) { assert s[i] in members; }
  }

  lemma DiffOfObjects(a: seq<Member>, b: seq<Member>)
    ensures forall m :: m in SortMembers(a) ==> m in a
    ensures Diff(Obj(a), Obj(b)) == DiffMembers(SortMembers(a), SortMembers(b), 0, 0, a)
  {
    hide DiffMembers;
    SortKeepsMembers(a);
  }

  lemma DiffObjectsWorks(a: seq<Member>, b: seq<Member>)
    requires WellFormed(Obj(a)) && WellFormed(Obj(b)) && Addressable(Obj(a)) && Addressable(Obj(b))
    ensures ApplyAllRfc(TObj(Fields(a)), Diff(Obj(a), Obj(b))) == Some(TObj(Fields(b)))
    ensures BelowNode(Diff(Obj(a), Obj(b)))
    decreases Size(Obj(a)), 0
  {
    assert Fields([]) == map[];
    DiffOfObjects(a, b);
    hide ApplyRfc, ApplyAllRfc, Addressable, Fields, Diff, DiffMembers, BelowNode, Sorted;
    var s, t := SortMembers(a), SortMembers(b);
    SortKeepsFields(a);
    SortKeepsFields(b);
    SortedIsAddressable(a);
    SortedIsAddressable(b);
    assert s[0..] == s && t[..0] == [];
    assert MixedFields(s, t, 0, 0) == Fields(s);
    DiffMembersWorks(s, t, 0, 0, a);
  }

  /** Applying the listed edits to the first value gives the second one. */
  lemma {:induction false} DiffWorks(from: Json, goal: Json)
    requires WellFormed(from) && WellFormed(goal) && Addressable(from) && Addressable(goal)
    ensures ApplyAllRfc(Meaning(from), Diff(from, goal)) == Some(Meaning(goal))
    ensures BelowNode(Diff(from, goal))
    decreases Size(from), 1
  {
    hide ApplyRfc, ApplyAllRfc;
    WholeWorks(Meaning(from), goal);
    NoEdits(Meaning(from));
    match (from, goal)
    case (Str(s), Str(t)) => CompareIsEquality(s, t);
    case (Arr(a), Arr(b)) =>
      assert b[..0] == [] && a[0..] == a;
      assert MixedItems(a, b, 0) == MeaningAll(a);
      DiffItemsWorks(a, b, 0);
    case (Obj(a), Obj(b)) => DiffObjectsWorks(a, b);
    case _ =>
  }

  // ---------------------------------------------------------------- edits that can be written out

  /** Paths need no escaping, values have distinct keys, and only values are ever placed at the root. */
  ghost predicate Writable(e: Edit) {
    && (forall i :: 0 <= i < |e.path| ==> PlainToken(e.path[i]))
    && WellFormed(e.value)
    && (e.op == Remove ==> e.value == Null)
    && (e.op != Replace ==> e.path != [])
  }

  ghost predicate AllWritable(edits: seq<Edit>) {
    forall i :: 0 <= i < |edits| ==> Writable(edits[i])
  }

  lemma {:induction false} UnderIsWritable(token: string, edits: seq<Edit>)
    requires PlainToken(token) && AllWritable(edits)
    ensures AllWritable(Under(token, edits))
  {
    if edits != [] {
      UnderIsWritable(token, edits[1..]);
    }
  }

  lemma {:induction false} RemovalsAreWritable(i: nat, count: nat)
    ensures AllWritable(RemoveAt(i, count))
  {
    if count > 0 {
      DigitsArePlain(i);
      RemovalsAreWritable(i, count - 1);
    }
  }

  lemma DigitsArePlain(n: nat)
    ensures PlainToken(ToDecimal(n))
  {
    forall c | c in ToDecimal(n) ensures c != '/' && c != '~' {
      var i :| 0 <= i < |ToDecimal(n)| && ToDecimal(n)[i] == c;
      assert IsDigit(c);
    }
  }

  lemma {:induction false} DiffItemsIsWritable(a: seq<Json>, b: seq<Json>, i: nat)
    requires WellFormed(Arr(a)) && WellFormed(Arr(b)) && PlainKeys(Arr(a)) && PlainKeys(Arr(b))
    ensures AllWritable(DiffItems(a, b, i))
    decreases SizeAll(a), 2, |a| + |b| - i
  {
    hide Diff, PlainToken;
    if i < |a| && i < |b| {
      SizeOfItem(a, i);
      DiffIsWritable(a[i], b[i]);
      DigitsArePlain(i);
      UnderIsWritable(ToDecimal(i), Diff(a[i], b[i]));
      DiffItemsIsWritable(a, b, i + 1);
    } else if i < |a| {
      RemovalsAreWritable(i, |a| - i);
    } else if i < |b| {
      assert PlainToken("-") by { DashIsPlain(); }
      DiffItemsIsWritable(a, b, i + 1);
    }
  }

  lemma DashIsPlain()
    ensures PlainToken("-")
  {
  }

  lemma WritableConcat(a: seq<Edit>, b: seq<Edit>)
    requires AllWritable(a) && AllWritable(b)
    ensures AllWritable(a + b)
  {
  }

  lemma NothingIsWritable()
    ensures AllWritable([]) && WellFormed(Null)
  {
  }

  lemma WritableOne(e: Edit)
    requires Writable(e)
    ensures AllWritable([e])
  {
  }

  lemma {:induction false} DiffMembersIsWritable(s: seq<Member>, t: seq<Member>, i: nat, j: nat, members: seq<Member>)
    requires i <= |s| && j <= |t| && (forall m :: m in s ==> m in members)
    requires WellFormed(Obj(s)) && WellFormed(Obj(t)) && PlainKeys(Obj(s)) && PlainKeys(Obj(t))
    ensures AllWritable(DiffMembers(s, t, i, j, members))
    decreases SizeMembers(members), 2, |s| - i + |t| - j
  {
    hide Diff, PlainToken, CompareKeys, AllWritable;
    NothingIsWritable();
    if i < |s| || j < |t| {
      var diff := if i == |s| then 1 else if j == |t| then -1 else CompareKeys(s[i].key, t[j].key);
      if diff == 0 {
        assert s[i] in s;
        SizeOfMember(members, s[i]);
        DiffIsWritable(s[i].val, t[j].val);
        UnderIsWritable(s[i].key, Diff(s[i].val, t[j].val));
        DiffMembersIsWritable(s, t, i + 1, j + 1, members);
        WritableConcat(Under(s[i].key, Diff(s[i].val, t[j].val)), DiffMembers(s, t, i + 1, j + 1, members));
      } else if diff < 0 {
        DiffMembersIsWritable(s, t, i + 1, j, members);
        WritableOne(Edit(Remove, [s[i].key], Null));
        WritableConcat([Edit(Remove, [s[i].key], Null)], DiffMembers(s, t, i + 1, j, members));
      } else {
        DiffMembersIsWritable(s, t, i, j + 1, members);
        WritableOne(Edit(Add, [t[j].key], t[j].val));
        WritableConcat([Edit(Add, [t[j].key], t[j].val)], DiffMembers(s, t, i, j + 1, members));
      }
    }
  }

  lemma PlainMembers(members: seq<Member>, s: seq<Member>)
    requires PlainKeys(Obj(members)) && forall m :: m in s ==> m in members
    ensures PlainKeys(Obj(s))
  {
    forall i | 0 <= i < |s| ensures PlainToken(s[i].key) && PlainKeys(s[i].val) {
      assert s[i] in members;
    }
  }

  lemma {:induction false} DiffIsWritable(from: Json, goal: Json)
    requires WellFormed(from) && WellFormed(goal) && PlainKeys(from) && PlainKeys(goal)
    ensures AllWritable(Diff(from, goal))
    decreases Size(from), 1
  {
    hide PlainToken;
    match (from, goal)
    case (Arr(a), Arr(b)) => DiffItemsIsWritable(a, b, 0);
    case (Obj(a), Obj(b)) =>
      SortKeepsFields(a);
      SortKeepsFields(b);
      PlainMembers(a, SortMembers(a));
      PlainMembers(b, SortMembers(b));
      DiffMembersIsWritable(SortMembers(a), SortMembers(b), 0, 0, a);
    case _ =>
  }
}
