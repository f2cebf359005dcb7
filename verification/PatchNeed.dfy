/** The edits that create_patches lists are needed, each of them. */
module PatchNeed {
  import opened Basics
  import opened Decimal
  import opened Json
  import opened JsonCompare
  import KeySort
  import opened PatchDiff
  import opened PatchRfc

  /** What justifies an edit between two trees. A value is replaced where both trees have one, when they differ
      and are not two arrays or two objects. A member is removed when only the first object has its key, and
      added when only the second has it. Elements are removed behind the length of a shorter second array, and
      appended for a longer one. */
  ghost predicate Needed(f: Tree, g: Tree, op: Op, path: seq<string>)
    decreases |path|
  {
    if path == [] then op == Replace && f != g && !(f.TArr? && g.TArr?) && !(f.TObj? && g.TObj?)
    else if |path| == 1 && op != Replace then EndNeeded(f, g, op, path[0])
    else
      && ((f.TArr? && g.TArr?) || (f.TObj? && g.TObj?))
      && ChildRfc(f, path[0]).Some? && ChildRfc(g, path[0]).Some?
      && Needed(ChildRfc(f, path[0]).value, ChildRfc(g, path[0]).value, op, path[1..])
  }

  ghost predicate EndNeeded(f: Tree, g: Tree, op: Op, token: string) {
    match (f, g)
    case (TArr(a), TArr(b)) =>
      if op == Add then token == "-" && |a| < |b| else op == Remove && token == ToDecimal(|b|) && |b| < |a|
    case (TObj(a), TObj(b)) =>
      if op == Add then Fold(token) !in a && Fold(token) in b
      else op == Remove && Fold(token) in a && Fold(token) !in b
    case _ => false
  }

  ghost predicate AllNeeded(f: Tree, g: Tree, edits: seq<Edit>) {
    forall k :: 0 <= k < |edits| ==> Needed(f, g, edits[k].op, edits[k].path)
  }

  lemma NeededConcat(f: Tree, g: Tree, a: seq<Edit>, b: seq<Edit>)
    requires AllNeeded(f, g, a) && AllNeeded(f, g, b)
    ensures AllNeeded(f, g, a + b)
  {
    hide Needed;
  }

  lemma OneNeeded(f: Tree, g: Tree, op: Op, token: string, v: Json)
    requires op != Replace && EndNeeded(f, g, op, token)
    ensures AllNeeded(f, g, [Edit(op, [token], v)])
  {
    hide EndNeeded;
  }

  /** Edits needed between two children are needed, below their token, between the parents. */
  lemma {:induction false} UnderNeeded(f: Tree, g: Tree, token: string, c: Tree, d: Tree, edits: seq<Edit>)
    requires (f.TArr? && g.TArr?) || (f.TObj? && g.TObj?)
    requires ChildRfc(f, token) == Some(c) && ChildRfc(g, token) == Some(d) && AllNeeded(c, d, edits)
    ensures AllNeeded(f, g, Under(token, edits))
  {
    hide ChildRfc, EndNeeded;
    if edits != [] {
      var path := [token] + edits[0].path;
      assert path[1..] == edits[0].path && path[0] == token;
      assert Needed(c, d, edits[0].op, edits[0].path);
      assert Needed(f, g, edits[0].op, path);
      UnderNeeded(f, g, token, c, d, edits[1..]);
    }
  }

  lemma {:induction false} RemovalsNeeded(f: Tree, g: Tree, i: nat, count: nat)
    requires f.TArr? && g.TArr? && i == |g.items| < |f.items|
    ensures AllNeeded(f, g, RemoveAt(i, count))
  {
    hide ToDecimal;
    if count > 0 {
      RemovalsNeeded(f, g, i, count - 1);
      OneNeeded(f, g, Remove, ToDecimal(i), Null);
      NeededConcat(f, g, [Edit(Remove, [ToDecimal(i)], Null)], RemoveAt(i, count - 1));
    }
  }

  lemma ElementChild(items: seq<Json>, i: nat)
    requires i < |items| <= SIZE_LIMIT
    ensures ChildRfc(TArr(MeaningAll(items)), ToDecimal(i)) == Some(Meaning(items[i]))
  {
    hide Meaning, IndexRfc;
    IndexRfcOfDecimal(i);
    MeaningAt(items, i);
  }

  lemma {:induction false} ItemsNeeded(a: seq<Json>, b: seq<Json>, i: nat)
    requires WellFormed(Arr(a)) && WellFormed(Arr(b)) && Addressable(Arr(a)) && Addressable(Arr(b)) && i <= |b|
    ensures AllNeeded(TArr(MeaningAll(a)), TArr(MeaningAll(b)), DiffItems(a, b, i))
    decreases SizeAll(a), 2, |a| + |b| - i
  {
    hide Diff, Meaning, MeaningAll, ChildRfc, AllNeeded;
    var f, g := TArr(MeaningAll(a)), TArr(MeaningAll(b));
    if i < |a| && i < |b| {
      SizeOfItem(a, i);
      DiffIsNeeded(a[i], b[i]);
      ElementChild(a, i);
      ElementChild(b, i);
      UnderNeeded(f, g, ToDecimal(i), Meaning(a[i]), Meaning(b[i]), Diff(a[i], b[i]));
      ItemsNeeded(a, b, i + 1);
      NeededConcat(f, g, Under(ToDecimal(i), Diff(a[i], b[i])), DiffItems(a, b, i + 1));
    } else if i < |a| {
      RemovalsNeeded(f, g, i, |a| - i);
    } else if i < |b| {
      ItemsNeeded(a, b, i + 1);
      OneNeeded(f, g, Add, "-", b[i]);
      NeededConcat(f, g, [Edit(Add, ["-"], b[i])], DiffItems(a, b, i + 1));
    } else {
      NothingNeeded(f, g);
    }
  }

  lemma NothingNeeded(f: Tree, g: Tree)
    ensures AllNeeded(f, g, [])
  {
  }

  lemma KeyOfPrefix(t: seq<Member>, j: nat, k: nat)
    requires k < j <= |t|
    ensures Fold(t[k].key) in Fields(t[..j])
  {
    hide Fold, Fields;
    FieldsKeys(t[..j], Fold(t[k].key));
    assert t[..j][k] == t[k];
  }

  /** A key that the walk finds in the first list alone is not in the second at all. */
  lemma OnlyInFirst(s: seq<Member>, t: seq<Member>, i: nat, j: nat)
    requires Sorted(s) && Sorted(t) && InStep(s, t, i, j) && i < |s|
    requires j < |t| ==> CompareKeys(s[i].key, t[j].key) < 0
    ensures Fold(s[i].key) in Fields(s) && Fold(s[i].key) !in Fields(t)
  {
    hide Fold, CompareKeys, Fields;
    var key := Fold(s[i].key);
    FieldsKeys(s, key);
    FieldsKeys(t, key);
    NextKeyIsNew(s, t, i, j);
    if HasKey(t, key) {
      var k :| 0 <= k < |t| && Fold(t[k].key) == key;
      CompareKeysSign(s[i].key, t[k].key);
      if k < j {
        KeyOfPrefix(t, j, k);
      } else if k > j {
        assert KeySort.Before(s[i], t[j], MemberKey()) && KeySort.Before(t[j], t[k], MemberKey());
        KeySort.BeforeTransitive(s[i], t[j], t[k], MemberKey());
      }
    }
  }

  lemma MemberChild(s: seq<Member>, i: nat)
    requires Sorted(s) && i < |s|
    ensures ChildRfc(TObj(Fields(s)), s[i].key) == Some(Meaning(s[i].val))
  {
    hide Meaning, Fold, Fields;
    SortedIsDistinct(s);
    FieldsAt(s, i);
  }

  lemma SameKeyChild(fields: map<string, Tree>, a: string, b: string)
    requires Fold(a) == Fold(b)
    ensures ChildRfc(TObj(fields), a) == ChildRfc(TObj(fields), b)
  {
  }

  lemma {:induction false} MembersNeeded(s: seq<Member>, t: seq<Member>, i: nat, j: nat, members: seq<Member>)
    requires Sorted(s) && Sorted(t) && InStep(s, t, i, j)
    requires WellFormed(Obj(s)) && WellFormed(Obj(t)) && forall m :: m in s ==> m in members
    requires Addressable(Obj(s)) && Addressable(Obj(t))
    ensures AllNeeded(TObj(Fields(s)), TObj(Fields(t)), DiffMembers(s, t, i, j, members))
    decreases SizeMembers(members), 2, |s| - i + |t| - j
  {
    hide Diff, Meaning, Fold, Fields, CompareKeys, Sorted, ChildRfc, AllNeeded;
    var f, g := TObj(Fields(s)), TObj(Fields(t));
    if i == |s| && j == |t| {
      NothingNeeded(f, g);
    } else {
      var diff := if i == |s| then 1 else if j == |t| then -1 else CompareKeys(s[i].key, t[j].key);
      if diff == 0 {
        CompareKeysSign(s[i].key, t[j].key);
        assert s[i] in s;
        SizeOfMember(members, s[i]);
        DiffIsNeeded(s[i].val, t[j].val);
        MemberChild(s, i);
        MemberChild(t, j);
        SameKeyChild(Fields(t), s[i].key, t[j].key);
        UnderNeeded(f, g, s[i].key, Meaning(s[i].val), Meaning(t[j].val), Diff(s[i].val, t[j].val));
        StepBoth(s, t, i, j);
        MembersNeeded(s, t, i + 1, j + 1, members);
        NeededConcat(f, g, Under(s[i].key, Diff(s[i].val, t[j].val)), DiffMembers(s, t, i + 1, j + 1, members));
      } else if diff < 0 {
        OnlyInFirst(s, t, i, j);
        StepFirst(s, t, i, j);
        MembersNeeded(s, t, i + 1, j, members);
        OneNeeded(f, g, Remove, s[i].key, Null);
        NeededConcat(f, g, [Edit(Remove, [s[i].key], Null)], DiffMembers(s, t, i + 1, j, members));
      } else {
        if i < |s| { CompareKeysSign(s[i].key, t[j].key); }
        InStepFlips(s, t, i, j);
        OnlyInFirst(t, s, j, i);
        StepFirst(t, s, j, i);
        InStepFlips(s, t, i, j + 1);
        MembersNeeded(s, t, i, j + 1, members);
        OneNeeded(f, g, Add, t[j].key, t[j].val);
        NeededConcat(f, g, [Edit(Add, [t[j].key], t[j].val)], DiffMembers(s, t, i, j + 1, members));
      }
    }
  }

  lemma ObjectsNeeded(a: seq<Member>, b: seq<Member>)
    requires WellFormed(Obj(a)) && WellFormed(Obj(b)) && Addressable(Obj(a)) && Addressable(Obj(b))
    ensures AllNeeded(TObj(Fields(a)), TObj(Fields(b)), Diff(Obj(a), Obj(b)))
    decreases Size(Obj(a)), 0
  {
    DiffOfObjects(a, b);
    SizeOfObject(a);
    hide Addressable, Fields, Diff, DiffMembers, AllNeeded, Sorted, Size, SizeMembers;
    SortKeepsFields(a);
    SortKeepsFields(b);
    SortedIsAddressable(a);
    SortedIsAddressable(b);
    MembersNeeded(SortMembers(a), SortMembers(b), 0, 0, a);
  }

  lemma SizeOfObject(a: seq<Member>)
    ensures Size(Obj(a)) > SizeMembers(a)
  {
  }

  lemma WholeNeeded(f: Tree, g: Tree, goal: Json)
    requires f != g && !(f.TArr? && g.TArr?) && !(f.TObj? && g.TObj?)
    ensures AllNeeded(f, g, Whole(goal))
  {
  }

  /** Every edit that is listed is needed: nothing is replaced, removed or added where the trees agree, and
      arrays and objects are edited inside and never replaced by their like. */
  lemma {:induction false} DiffIsNeeded(from: Json, goal: Json)
    requires WellFormed(from) && WellFormed(goal) && Addressable(from) && Addressable(goal)
    ensures AllNeeded(Meaning(from), Meaning(goal), Diff(from, goal))
    decreases Size(from), 1
  {
    hide AllNeeded;
    NothingNeeded(Meaning(from), Meaning(goal));
    match (from, goal)
    case (Num(m), Num(n)) => if m != n { WholeNeeded(TNum(m), TNum(n), goal); }
    case (Str(s), Str(t)) =>
      CompareIsEquality(s, t);
      if s != t { WholeNeeded(TStr(s), TStr(t), goal); }
    case (Arr(a), Arr(b)) => ItemsNeeded(a, b, 0);
    case (Obj(a), Obj(b)) => ObjectsNeeded(a, b);
    case (Null, Null) =>
    case (False, False) =>
    case (True, True) =>
    case _ => WholeNeeded(Meaning(from), Meaning(goal), goal);
  }

  lemma {:induction false} NothingBetweenEqual(t: Tree, op: Op, path: seq<string>)
    ensures !Needed(t, t, op, path)
    decreases |path|
  {
    if path != [] && !(|path| == 1 && op != Replace) && ChildRfc(t, path[0]).Some? {
      NothingBetweenEqual(ChildRfc(t, path[0]).value, op, path[1..]);
    }
  }

  /** There is nothing to do exactly between values with the same meaning. */
  lemma NoEditsExactly(from: Json, goal: Json)
    requires WellFormed(from) && WellFormed(goal) && Addressable(from) && Addressable(goal)
    ensures Diff(from, goal) == [] <==> Meaning(from) == Meaning(goal)
  {
    hide Diff, Meaning, Needed;
    DiffWorks(from, goal);
    DiffIsNeeded(from, goal);
    var edits := Diff(from, goal);
    if Meaning(from) == Meaning(goal) && edits != [] {
      NothingBetweenEqual(Meaning(from), edits[0].op, edits[0].path);
    }
  }
}
