/** The two comparisons of JSON values: by lookup (cJSON_Compare) and by sorting and walking both
    member lists in step (compare_json). */
module JsonCompare {
  import opened Json
  import KeySort

  function MemberKey(): Member -> string {
    (m: Member) => m.key
  }

  /** The members in the order sort_object leaves them in. */
  function SortMembers(members: seq<Member>): (r: seq<Member>)
    ensures |r| == |members|
  {
    KeySort.Sort(members, MemberKey())
  }

  ghost predicate Sorted(members: seq<Member>) {
    KeySort.StrictlySorted(members, MemberKey())
  }

  lemma SortKeepsMembers(members: seq<Member>)
    ensures forall m :: m in SortMembers(members) ==> m in members
  {
    KeySort.SortPermutes(members, MemberKey());
    forall m | m in SortMembers(members) ensures m in members {
      KeySort.SameElements(SortMembers(members), members, m);
    }
  }

  /** Sorting keeps the members, hence the fields, and orders the keys. */
  lemma SortKeepsFields(members: seq<Member>)
    requires WellFormed(Obj(members))
    ensures var s := SortMembers(members);
            Sorted(s) && WellFormed(Obj(s)) && Fields(s) == Fields(members)
            && forall m :: m in s <==> m in members
  {
    hide Fields, Meaning, KeySort.Sort;
    var s := SortMembers(members);
    KeySort.SortPermutes(members, MemberKey());
    KeySort.SortSorts(members, MemberKey());
    forall m: Member ensures m in s <==> m in members {
      KeySort.SameElements(s, members, m);
    }
    SortedIsDistinct(s);
    forall k | k in Fields(members) ensures HasKey(s, k) {
      FieldsKeys(members, k);
      var i :| 0 <= i < |members| && Fold(members[i].key) == k;
      assert members[i] in members;
      var j :| 0 <= j < |s| && s[j] == members[i];
    }
    forall i | 0 <= i < |s|
      ensures Fold(s[i].key) in Fields(members) && Fields(members)[Fold(s[i].key)] == Meaning(s[i].val)
    {
      assert s[i] in members;
      var j :| 0 <= j < |members| && members[j] == s[i];
      FieldsAt(members, j);
    }
    FieldsAre(s, Fields(members));
    forall i | 0 <= i < |s| ensures WellFormed(s[i].val) {
      assert s[i] in members;
    }
  }

  lemma SortedIsDistinct(s: seq<Member>)
    requires Sorted(s)
    ensures DistinctKeys(s)
  {
    forall i, j | 0 <= i < j < |s| ensures Fold(s[i].key) != Fold(s[j].key) {
      assert KeySort.Before(s[i], s[j], MemberKey());
      KeySort.BeforeTotal(s[i], s[j], MemberKey());
    }
  }

  /** A key that falls between two neighbours of a sorted list is not in it. */
  lemma KeyBetween(s: seq<Member>, i: nat, m: Member)
    requires Sorted(s) && i <= |s|
    requires i > 0 ==> CompareKeys(s[i - 1].key, m.key) < 0
    requires i < |s| ==> CompareKeys(m.key, s[i].key) < 0
    ensures Fold(m.key) !in Fields(s)
  {
    FieldsKeys(s, Fold(m.key));
    if HasKey(s, Fold(m.key)) {
      var j :| 0 <= j < |s| && Fold(s[j].key) == Fold(m.key);
      NotAmong(s, i, m, j);
    }
  }

  lemma NotAmong(s: seq<Member>, i: nat, m: Member, j: nat)
    requires Sorted(s) && i <= |s| && j < |s|
    requires i > 0 ==> CompareKeys(s[i - 1].key, m.key) < 0
    requires i < |s| ==> CompareKeys(m.key, s[i].key) < 0
    ensures Fold(s[j].key) != Fold(m.key)
  {
    hide CompareKeys, Fold;
    if j < i {
      assert KeySort.Before(s[i - 1], m, MemberKey());
      if j < i - 1 {
        assert KeySort.Before(s[j], s[i - 1], MemberKey());
        KeySort.BeforeTransitive(s[j], s[i - 1], m, MemberKey());
      }
      KeySort.BeforeTotal(s[j], m, MemberKey());
    } else {
      assert KeySort.Before(m, s[i], MemberKey());
      if i < j {
        assert KeySort.Before(s[i], s[j], MemberKey());
        KeySort.BeforeTransitive(m, s[i], s[j], MemberKey());
      }
      KeySort.BeforeTotal(m, s[j], MemberKey());
    }
  }

  // ---------------------------------------------------------------- a size for termination

  function Size(j: Json): nat {
    match j
    case Arr(items) => 1 + SizeAll(items)
    case Obj(members) => 1 + SizeMembers(members)
    case _ => 1
  }

  function SizeAll(items: seq<Json>): nat {
    if items == [] then 0 else Size(items[0]) + SizeAll(items[1..])
  }

  function SizeMembers(members: seq<Member>): nat {
    if members == [] then 0 else Size(members[0].val) + SizeMembers(members[1..])
  }

  lemma {:induction false} SizeOfItem(items: seq<Json>, i: nat)
    requires i < |items|
    ensures Size(items[i]) <= SizeAll(items)
  {
    if i > 0 { SizeOfItem(items[1..], i - 1); }
  }

  lemma {:induction false} SizeOfMember(members: seq<Member>, m: Member)
    requires m in members
    ensures Size(m.val) <= SizeMembers(members)
  {
    if m != members[0] { SizeOfMember(members[1..], m); }
  }

  lemma MeaningDiffers(a: seq<Json>, b: seq<Json>, i: nat)
    requires i < |a| && i < |b| && Meaning(a[i]) != Meaning(b[i])
    ensures MeaningAll(a) != MeaningAll(b)
  {
    MeaningAt(a, i);
    MeaningAt(b, i);
  }

  lemma MeaningAgrees(a: seq<Json>, b: seq<Json>)
    requires |a| == |b| && forall i :: 0 <= i < |a| ==> Meaning(a[i]) == Meaning(b[i])
    ensures MeaningAll(a) == MeaningAll(b)
  {
    forall i | 0 <= i < |a| ensures MeaningAll(a)[i] == MeaningAll(b)[i] {
      MeaningAt(a, i);
      MeaningAt(b, i);
    }
  }

  // ---------------------------------------------------------------- comparison by sorting

  /** Two sorted lists that agree so far. */
  ghost predicate AgreeUpTo(s: seq<Member>, t: seq<Member>, i: nat) {
    && i <= |s| && i <= |t|
    && forall j :: 0 <= j < i ==> Fold(s[j].key) == Fold(t[j].key) && Meaning(s[j].val) == Meaning(t[j].val)
  }

  /** Where two sorted lists that agree so far part, one of them has a key the other lacks. */
  lemma ExtraKey(s: seq<Member>, t: seq<Member>, i: nat)
    requires Sorted(s) && Sorted(t) && AgreeUpTo(s, t, i) && i < |s|
    requires i < |t| ==> CompareKeys(s[i].key, t[i].key) < 0
    ensures Fold(s[i].key) in Fields(s) && Fold(s[i].key) !in Fields(t)
  {
    hide CompareKeys, Fold;
    SortedIsDistinct(s);
    FieldsAt(s, i);
    if i > 0 {
      assert KeySort.Before(s[i - 1], s[i], MemberKey());
      SameFoldCompares(s[i - 1].key, t[i - 1].key, s[i].key);
    }
    KeyBetween(t, i, s[i]);
  }

  lemma SameFoldCompares(a: string, b: string, c: string)
    requires Fold(a) == Fold(b)
    ensures CompareKeys(a, c) == CompareKeys(b, c) && CompareKeys(c, a) == CompareKeys(c, b)
  {
  }

  lemma AgreeAll(s: seq<Member>, t: seq<Member>)
    requires Sorted(s) && Sorted(t) && |s| == |t| && AgreeUpTo(s, t, |s|)
    ensures Fields(s) == Fields(t)
  {
    hide Fields, Meaning, Fold;
    SortedIsDistinct(s);
    SortedIsDistinct(t);
    forall k | k in Fields(t) ensures HasKey(s, k) {
      FieldsKeys(t, k);
      var i :| 0 <= i < |t| && Fold(t[i].key) == k;
      assert Fold(s[i].key) == k;
    }
    forall i | 0 <= i < |s|
      ensures Fold(s[i].key) in Fields(t) && Fields(t)[Fold(s[i].key)] == Meaning(s[i].val)
    {
      FieldsAt(t, i);
    }
    FieldsAre(s, Fields(t));
  }

  lemma ValueDiffers(s: seq<Member>, t: seq<Member>, i: nat)
    requires Sorted(s) && Sorted(t) && i < |s| && i < |t|
    requires Fold(s[i].key) == Fold(t[i].key) && Meaning(s[i].val) != Meaning(t[i].val)
    ensures Fields(s) != Fields(t)
  {
    SortedIsDistinct(s);
    SortedIsDistinct(t);
    FieldsAt(s, i);
    FieldsAt(t, i);
  }

  /** compare_json, not case sensitive. */
  method CompareJson(a: Json, b: Json) returns (same: bool)
    requires WellFormed(a) && WellFormed(b)
    ensures same <==> Meaning(a) == Meaning(b)
    decreases Size(a), 0
  {
    match a {
      case Null => same := b.Null?;
      case False => same := b.False?;
      case True => same := b.True?;
      case Num(n) => same := b.Num? && n == b.n;
      case Str(s) => same := b.Str? && CompareStrings(s, b.s) == 0;
        if b.Str? { CompareIsEquality(s, b.s); }
      case Arr(items) =>
        if !b.Arr? { return false; }
        same := CompareItems(items, b.items);
      case Obj(members) =>
        if !b.Obj? { return false; }
        same := CompareMembers(members, b.members);
    }
  }

  method CompareItems(a: seq<Json>, b: seq<Json>) returns (same: bool)
    requires WellFormed(Arr(a)) && WellFormed(Arr(b))
    ensures same <==> MeaningAll(a) == MeaningAll(b)
    decreases SizeAll(a), 1
  {
    var i := 0;
    while i < |a| && i < |b|
      invariant 0 <= i <= |a| && i <= |b|
      invariant forall j :: 0 <= j < i ==> Meaning(a[j]) == Meaning(b[j])
    {
      SizeOfItem(a, i);
      var identical := CompareJson(a[i], b[i]);
      if !identical {
        MeaningDiffers(a, b, i);
        return false;
      }
      i := i + 1;
    }
    if i < |a| || i < |b| { return false; }
    MeaningAgrees(a, b);
    same := true;
  }

  method CompareMembers(a: seq<Member>, b: seq<Member>) returns (same: bool)
    requires WellFormed(Obj(a)) && WellFormed(Obj(b))
    ensures same <==> Fields(a) == Fields(b)
    decreases SizeMembers(a), 1
  {
    hide Fields, Meaning, Fold, CompareKeys, Size;
    var s, t := SortMembers(a), SortMembers(b);
    SortKeepsFields(a);
    SortKeepsFields(b);
    var i := 0;
    while i < |s| && i < |t|
      invariant AgreeUpTo(s, t, i)
    {
      var diff := CompareKeys(s[i].key, t[i].key);
      CompareKeysSign(s[i].key, t[i].key);
      if diff != 0 {
        if diff < 0 {
          ExtraKey(s, t, i);
        } else {
          ExtraKey(t, s, i);
        }
        return false;
      }
      assert s[i] in a;
      SizeOfMember(a, s[i]);
      var identical := CompareJson(s[i].val, t[i].val);
      if !identical {
        ValueDiffers(s, t, i);
        return false;
      }
      i := i + 1;
    }
    if i < |s| {
      ExtraKey(s, t, i);
      return false;
    }
    if i < |t| {
      ExtraKey(t, s, i);
      return false;
    }
    AgreeAll(s, t);
    same := true;
  }

  lemma CompareKeysSign(a: string, b: string)
    ensures CompareKeys(a, b) == 0 <==> Fold(a) == Fold(b)
    ensures CompareKeys(a, b) > 0 <==> CompareKeys(b, a) < 0
  {
    CompareIsEquality(Fold(a), Fold(b));
    CompareFlips(Fold(b), Fold(a));
  }

  // ---------------------------------------------------------------- walking two sorted lists

  /** Two cursors that always advance past the smaller key: what lies behind one of them is before
      what lies ahead of the other. */
  ghost predicate InStep(s: seq<Member>, t: seq<Member>, i: nat, j: nat) {
    && i <= |s| && j <= |t|
    && (i > 0 && j < |t| ==> CompareKeys(s[i - 1].key, t[j].key) < 0)
    && (j > 0 && i < |s| ==> CompareKeys(t[j - 1].key, s[i].key) < 0)
  }

  lemma StepBoth(s: seq<Member>, t: seq<Member>, i: nat, j: nat)
    requires Sorted(s) && Sorted(t) && InStep(s, t, i, j) && i < |s| && j < |t|
    requires CompareKeys(s[i].key, t[j].key) == 0
    ensures InStep(s, t, i + 1, j + 1)
  {
    hide Fold;
    CompareKeysSign(s[i].key, t[j].key);
    if i + 1 < |s| {
      assert KeySort.Before(s[i], s[i + 1], MemberKey());
      SameFoldCompares(s[i].key, t[j].key, s[i + 1].key);
    }
    if j + 1 < |t| {
      assert KeySort.Before(t[j], t[j + 1], MemberKey());
      SameFoldCompares(s[i].key, t[j].key, t[j + 1].key);
    }
  }

  lemma StepFirst(s: seq<Member>, t: seq<Member>, i: nat, j: nat)
    requires Sorted(s) && Sorted(t) && InStep(s, t, i, j) && i < |s|
    requires j < |t| ==> CompareKeys(s[i].key, t[j].key) < 0
    ensures InStep(s, t, i + 1, j)
  {
    if j > 0 && i + 1 < |s| {
      assert KeySort.Before(t[j - 1], s[i], MemberKey());
      assert KeySort.Before(s[i], s[i + 1], MemberKey());
      KeySort.BeforeTransitive(t[j - 1], s[i], s[i + 1], MemberKey());
    }
  }

  lemma InStepFlips(s: seq<Member>, t: seq<Member>, i: nat, j: nat)
    ensures InStep(s, t, i, j) <==> InStep(t, s, j, i)
  {
  }

  /** The next key of one list is new to what was passed of either list. */
  lemma NextKeyIsNew(s: seq<Member>, t: seq<Member>, i: nat, j: nat)
    requires Sorted(s) && Sorted(t) && InStep(s, t, i, j) && i < |s|
    ensures Fold(s[i].key) !in Fields(s[..i]) && Fold(s[i].key) !in Fields(t[..j])
    ensures s[..i + 1] == s[..i] + [s[i]] && DistinctKeys(s[..i + 1])
    ensures Fields(s[..i + 1]) == Fields(s[..i])[Fold(s[i].key) := Meaning(s[i].val)]
  {
    hide Fold, CompareKeys, Fields;
    SortedPrefix(s, i);
    SortedPrefix(s, i + 1);
    SortedPrefix(t, j);
    if i > 0 { assert KeySort.Before(s[i - 1], s[i], MemberKey()); }
    KeyBetween(s[..i], i, s[i]);
    KeyBetween(t[..j], j, s[i]);
    SortedIsDistinct(s[..i]);
    SortedIsDistinct(s[..i + 1]);
    FieldsAppend(s[..i], s[i]);
  }

  lemma SortedPrefix(s: seq<Member>, i: nat)
    requires Sorted(s) && i <= |s|
    ensures Sorted(s[..i])
  {
  }

  // ---------------------------------------------------------------- comparison by lookup

  /** cJSON_Compare, not case sensitive: every member of either object has an equal one in the other. */
  method CompareByLookup(a: Json, b: Json) returns (same: bool)
    requires WellFormed(a) && WellFormed(b)
    ensures same <==> Meaning(a) == Meaning(b)
    decreases Size(a) + Size(b), 1
  {
    match a {
      case Null => same := b.Null?;
      case False => same := b.False?;
      case True => same := b.True?;
      case Num(n) => same := b.Num? && n == b.n;
      case Str(s) => same := b.Str? && CompareStrings(s, b.s) == 0;
        if b.Str? { CompareIsEquality(s, b.s); }
      case Arr(items) =>
        if !b.Arr? { return false; }
        same := CompareItemsByLookup(items, b.items);
      case Obj(members) =>
        if !b.Obj? { return false; }
        var forward := EveryMemberFound(members, b.members);
        if !forward { return false; }
        var backward := EveryMemberFound(b.members, members);
        same := backward;
        assert backward ==> Fields(members) == Fields(b.members);
    }
  }

  method CompareItemsByLookup(a: seq<Json>, b: seq<Json>) returns (same: bool)
    requires WellFormed(Arr(a)) && WellFormed(Arr(b))
    ensures same <==> MeaningAll(a) == MeaningAll(b)
    decreases SizeAll(a) + SizeAll(b), 2
  {
    var i := 0;
    while i < |a| && i < |b|
      invariant 0 <= i <= |a| && i <= |b|
      invariant forall j :: 0 <= j < i ==> Meaning(a[j]) == Meaning(b[j])
    {
      SizeOfItem(a, i);
      SizeOfItem(b, i);
      var identical := CompareByLookup(a[i], b[i]);
      if !identical {
        MeaningDiffers(a, b, i);
        return false;
      }
      i := i + 1;
    }
    if |a| != |b| { return false; }
    MeaningAgrees(a, b);
    same := true;
  }

  /** One pass of the object case. */
  method EveryMemberFound(a: seq<Member>, b: seq<Member>) returns (yes: bool)
    requires WellFormed(Obj(a)) && WellFormed(Obj(b))
    ensures yes <==> forall k :: k in Fields(a) ==> k in Fields(b) && Fields(a)[k] == Fields(b)[k]
    decreases SizeMembers(a) + SizeMembers(b), 2
  {
    hide Fields, Meaning, Fold, Size;
    var i := 0;
    while i < |a|
      invariant 0 <= i <= |a|
      invariant forall j :: 0 <= j < i ==>
        Fold(a[j].key) in Fields(b) && Fields(b)[Fold(a[j].key)] == Meaning(a[j].val)
    {
      FieldsAt(a, i);
      FindIsLookup(b, a[i].key);
      var at := Find(b, a[i].key);
      if at == |b| { return false; }
      SizeOfMember(a, a[i]);
      SizeOfMember(b, b[at]);
      var identical := CompareByLookup(a[i].val, b[at].val);
      if !identical { return false; }
      i := i + 1;
    }
    yes := true;
    forall k | k in Fields(a) ensures k in Fields(b) && Fields(a)[k] == Fields(b)[k] {
      FieldsKeys(a, k);
      var j :| 0 <= j < |a| && Fold(a[j].key) == k;
      FieldsAt(a, j);
    }
  }
}
