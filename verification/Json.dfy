/** JSON values as cJSON holds them, and the trees they stand for: object members without order,
    keys without case. */
module Json {
  import opened Basics

  /** A cJSON node. Object members keep their list order. */
  datatype Json =
    | Null
    | False
    | True
    | Num(n: int)
    | Str(s: string)
    | Arr(items: seq<Json>)
    | Obj(members: seq<Member>)

  datatype Member = Member(key: string, val: Json)

  // ---------------------------------------------------------------- keys

  /** tolower in the C locale. */
  function ToLower(c: char): char {
    if 'A' <= c <= 'Z' then (c as int + 32) as char else c
  }

  function Fold(key: string): (f: string)
    ensures |f| == |key|
  {
    if key == [] then [] else [ToLower(key[0])] + Fold(key[1..])
  }

  const UPPER: string := "ABCDEFGHIJKLMNOPQRSTUVWXYZ"
  const LOWER: string := "abcdefghijklmnopqrstuvwxyz"

  /** Exactly the 26 letters change, each into its own small one. */
  lemma ToLowerIs(c: char)
    ensures forall i :: 0 <= i < 26 ==> ToLower(UPPER[i]) == LOWER[i]
    ensures c !in UPPER ==> ToLower(c) == c
  {
    if 'A' <= c <= 'Z' {
      assert UPPER[c as int - 65] == c;
    }
  }

  lemma {:induction false} FoldAt(key: string, i: nat)
    requires i < |key|
    ensures Fold(key)[i] == ToLower(key[i])
  {
    if i > 0 {
      FoldAt(key[1..], i - 1);
    }
  }

  /** The sign of a comparison of strings byte by byte; the end of a string precedes every byte. */
  function CompareStrings(a: string, b: string): int {
    if a == [] then (if b == [] then 0 else -1)
    else if b == [] then 1
    else if a[0] == b[0] then CompareStrings(a[1..], b[1..])
    else a[0] as int - b[0] as int
  }

  /** compare_strings, not case sensitive. */
  function CompareKeys(a: string, b: string): int {
    CompareStrings(Fold(a), Fold(b))
  }

  lemma {:induction false} CompareIsEquality(a: string, b: string)
    ensures CompareStrings(a, b) == 0 <==> a == b
  {
    if a != [] && b != [] && a[0] == b[0] {
      CompareIsEquality(a[1..], b[1..]);
      assert a == [a[0]] + a[1..] && b == [b[0]] + b[1..];
    }
  }

  /** The order of the dictionary: the first byte that differs decides, and a prefix comes first. */
  lemma {:induction false} CompareIsDictionary(a: string, b: string, k: nat)
    requires k <= |a| && k < |b| && a[..k] == b[..k] && (k == |a| || a[k] < b[k])
    ensures CompareStrings(a, b) < 0
  {
    if k > 0 {
      assert a[0] == a[..k][0] == b[..k][0] == b[0];
      assert a[1..][..k - 1] == a[..k][1..] == b[..k][1..] == b[1..][..k - 1];
      CompareIsDictionary(a[1..], b[1..], k - 1);
    }
  }

  lemma {:induction false} CompareFlips(a: string, b: string)
    ensures CompareStrings(a, b) < 0 <==> CompareStrings(b, a) > 0
  {
    if a != [] && b != [] && a[0] == b[0] {
      CompareFlips(a[1..], b[1..]);
    }
  }

  lemma {:induction false} CompareIsTransitive(a: string, b: string, c: string)
    requires CompareStrings(a, b) < 0 && CompareStrings(b, c) < 0
    ensures CompareStrings(a, c) < 0
  {
    if a != [] && b != [] && c != [] && a[0] == b[0] == c[0] {
      CompareIsTransitive(a[1..], b[1..], c[1..]);
    }
  }

  // ---------------------------------------------------------------- trees

  /** What a JSON value means: an object is a finite map on folded keys. */
  datatype Tree =
    | TNull
    | TFalse
    | TTrue
    | TNum(n: int)
    | TStr(s: string)
    | TArr(items: seq<Tree>)
    | TObj(fields: map<string, Tree>)

  function Meaning(j: Json): Tree {
    match j
    case Null => TNull
    case False => TFalse
    case True => TTrue
    case Num(n) => TNum(n)
    case Str(s) => TStr(s)
    case Arr(items) => TArr(MeaningAll(items))
    case Obj(members) => TObj(Fields(members))
  }

  function MeaningAll(items: seq<Json>): (ts: seq<Tree>)
    ensures |ts| == |items|
  {
    if items == [] then [] else [Meaning(items[0])] + MeaningAll(items[1..])
  }

  /** Of several members with one key, a lookup finds the first. */
  function Fields(members: seq<Member>): map<string, Tree> {
    if members == [] then map[]
    else Fields(members[1..])[Fold(members[0].key) := Meaning(members[0].val)]
  }

  ghost predicate DistinctKeys(members: seq<Member>) {
    forall i, j :: 0 <= i < j < |members| ==> Fold(members[i].key) != Fold(members[j].key)
  }

  /** Keys are distinct, up to case, in every object. */
  ghost predicate WellFormed(j: Json) {
    match j
    case Arr(items) => forall i :: 0 <= i < |items| ==> WellFormed(items[i])
    case Obj(members) =>
      DistinctKeys(members) && forall i :: 0 <= i < |members| ==> WellFormed(members[i].val)
    case _ => true
  }

  lemma {:induction false} MeaningAt(items: seq<Json>, i: nat)
    requires i < |items|
    ensures MeaningAll(items)[i] == Meaning(items[i])
  {
    if i > 0 {
      MeaningAt(items[1..], i - 1);
    }
  }

  lemma {:induction false} MeaningAllConcat(a: seq<Json>, b: seq<Json>)
    ensures MeaningAll(a + b) == MeaningAll(a) + MeaningAll(b)
  {
    if a == [] {
      assert a + b == b;
    } else {
      assert (a + b)[1..] == a[1..] + b;
      MeaningAllConcat(a[1..], b);
    }
  }

  ghost predicate HasKey(members: seq<Member>, key: string) {
    exists i :: 0 <= i < |members| && Fold(members[i].key) == key
  }

  lemma {:induction false} FieldsKeys(members: seq<Member>, key: string)
    ensures key in Fields(members) <==> HasKey(members, key)
  {
    if members != [] {
      FieldsKeys(members[1..], key);
      if HasKey(members, key) && Fold(members[0].key) != key {
        var i :| 0 <= i < |members| && Fold(members[i].key) == key;
        assert members[1..][i - 1] == members[i];
      }
      if HasKey(members[1..], key) {
        var i :| 0 <= i < |members[1..]| && Fold(members[1..][i].key) == key;
        assert members[i + 1] == members[1..][i];
      }
    }
  }

  lemma {:induction false} FieldsAt(members: seq<Member>, i: nat)
    requires DistinctKeys(members) && i < |members|
    ensures var k := Fold(members[i].key);
            k in Fields(members) && Fields(members)[k] == Meaning(members[i].val)
  {
    if i > 0 {
      FieldsAt(members[1..], i - 1);
    }
  }

  /** A map is the fields of a member list when it has its keys and its values. */
  lemma FieldsAre(members: seq<Member>, fields: map<string, Tree>)
    requires DistinctKeys(members)
    requires forall k :: k in fields ==> HasKey(members, k)
    requires forall i :: 0 <= i < |members| ==>
               Fold(members[i].key) in fields && fields[Fold(members[i].key)] == Meaning(members[i].val)
    ensures Fields(members) == fields
  {
    hide Fields, Fold, Meaning;
    forall k | k in Fields(members) ensures k in fields && fields[k] == Fields(members)[k] {
      FieldsKeys(members, k);
      var i :| 0 <= i < |members| && Fold(members[i].key) == k;
      FieldsAt(members, i);
    }
    forall k | k in fields ensures k in Fields(members) {
      FieldsKeys(members, k);
    }
  }

  // ---------------------------------------------------------------- lookup

  /** The position of the first member with that key up to case, or the length of the list. */
  function Find(members: seq<Member>, key: string): (i: nat)
    ensures i <= |members|
    ensures i < |members| ==> Fold(members[i].key) == Fold(key)
    ensures forall j :: 0 <= j < i ==> Fold(members[j].key) != Fold(key)
  {
    if members == [] || Fold(members[0].key) == Fold(key) then 0
    else Find(members[1..], key) + 1
  }

  lemma FindIsLookup(members: seq<Member>, key: string)
    requires DistinctKeys(members)
    ensures Find(members, key) < |members| <==> Fold(key) in Fields(members)
    ensures Find(members, key) < |members| ==>
              Fields(members)[Fold(key)] == Meaning(members[Find(members, key)].val)
  {
    FieldsKeys(members, Fold(key));
    var i := Find(members, key);
    if i < |members| {
      FieldsAt(members, i);
    }
  }

  /** Detaching the member at position i removes its key. */
  lemma FieldsWithout(members: seq<Member>, i: nat)
    requires DistinctKeys(members) && i < |members|
    ensures var rest := members[..i] + members[i + 1..];
            DistinctKeys(rest) && Fields(rest) == Fields(members) - {Fold(members[i].key)}
  {
    hide Fold, Meaning;
    hide Fields;
    var rest := members[..i] + members[i + 1..];
    var fields := Fields(members) - {Fold(members[i].key)};
    forall k | k in fields ensures HasKey(rest, k) {
      FieldsKeys(members, k);
      var j :| 0 <= j < |members| && Fold(members[j].key) == k;
      assert rest[if j < i then j else j - 1] == members[j];
    }
    forall j | 0 <= j < |rest|
      ensures Fold(rest[j].key) in fields && fields[Fold(rest[j].key)] == Meaning(rest[j].val)
    {
      FieldsAt(members, if j < i then j else j + 1);
    }
    FieldsAre(rest, fields);
  }

  /** Appending a member with a new key adds it. */
  lemma FieldsAppend(members: seq<Member>, m: Member)
    requires DistinctKeys(members) && Fold(m.key) !in Fields(members)
    ensures DistinctKeys(members + [m])
    ensures Fields(members + [m]) == Fields(members)[Fold(m.key) := Meaning(m.val)]
  {
    hide Fold, Meaning;
    hide Fields;
    forall i | 0 <= i < |members| ensures Fold(members[i].key) != Fold(m.key) {
      FieldsAt(members, i);
    }
    var more := members + [m];
    var fields := Fields(members)[Fold(m.key) := Meaning(m.val)];
    forall k | k in fields ensures HasKey(more, k) {
      if k == Fold(m.key) {
        assert more[|members|] == m;
      } else {
        FieldsKeys(members, k);
        var j :| 0 <= j < |members| && Fold(members[j].key) == k;
        assert more[j] == members[j];
      }
    }
    forall j | 0 <= j < |more|
      ensures Fold(more[j].key) in fields && fields[Fold(more[j].key)] == Meaning(more[j].val)
    {
      if j < |members| { FieldsAt(members, j); }
    }
    FieldsAre(more, fields);
  }

  /** Overwriting a value in place. */
  lemma FieldsUpdate(members: seq<Member>, i: nat, v: Json)
    requires DistinctKeys(members) && i < |members|
    ensures var changed := members[i := members[i].(val := v)];
            DistinctKeys(changed) && Fields(changed) == Fields(members)[Fold(members[i].key) := Meaning(v)]
  {
    hide Fold, Meaning;
    hide Fields;
    var changed := members[i := members[i].(val := v)];
    var fields := Fields(members)[Fold(members[i].key) := Meaning(v)];
    forall k | k in fields ensures HasKey(changed, k) {
      if k == Fold(members[i].key) {
        assert changed[i].key == members[i].key;
      } else {
        FieldsKeys(members, k);
        var j :| 0 <= j < |members| && Fold(members[j].key) == k;
        assert changed[j] == members[j];
      }
    }
    forall j | 0 <= j < |changed|
      ensures Fold(changed[j].key) in fields && fields[Fold(changed[j].key)] == Meaning(changed[j].val)
    {
      if j != i { FieldsAt(members, j); }
    }
    FieldsAre(changed, fields);
  }

  /** cJSON_GetObjectItem: the first member with the key, up to case. */
  function Item(j: Json, key: string): (item: Option<Json>)
    ensures item.Some? && WellFormed(j) ==> WellFormed(item.value)
  {
    if !j.Obj? then None
    else
      var i := Find(j.members, key);
      if i < |j.members| then Some(j.members[i].val) else None
  }

  lemma FindIs(members: seq<Member>, key: string, i: nat)
    requires i < |members| && Fold(members[i].key) == Fold(key)
    requires forall j :: 0 <= j < i ==> Fold(members[j].key) != Fold(key)
    ensures Find(members, key) == i
  {
    hide Fold, Find;
  }

  /** A member is found under its key when no earlier one has that key. */
  lemma ItemAt(members: seq<Member>, i: nat)
    requires i < |members|
    requires forall j :: 0 <= j < i ==> Fold(members[j].key) != Fold(members[i].key)
    ensures Item(Obj(members), members[i].key) == Some(members[i].val)
  {
    hide Fold, Find;
    FindIs(members, members[i].key, i);
  }
}
