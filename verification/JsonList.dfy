/** List operations of cJSON on the children of a node. */
module JsonList {
  import opened Basics
  import opened Json

  function Get(fields: map<string, Tree>, k: string): Option<Tree> {
    if k in fields then Some(fields[k]) else None
  }

  ghost function MeaningOf(j: Option<Json>): Option<Tree> {
    if j.None? then None else Some(Meaning(j.value))
  }

  /** The members without the first one that has the key. */
  function Without(members: seq<Member>, key: string): seq<Member> {
    var at := Find(members, key);
    if at < |members| then members[..at] + members[at + 1..] else members
  }

  lemma WithoutMeans(members: seq<Member>, key: string)
    requires WellFormed(Obj(members))
    ensures WellFormed(Obj(Without(members, key)))
    ensures Fields(Without(members, key)) == Fields(members) - {Fold(key)}
    ensures var item := Item(Obj(members), key);
            MeaningOf(item) == Get(Fields(members), Fold(key)) && (item.Some? ==> WellFormed(item.value))
  {
    hide Fields, Meaning, Fold;
    FindIsLookup(members, key);
    var at := Find(members, key);
    if at < |members| {
      FieldsWithout(members, at);
      var rest := members[..at] + members[at + 1..];
      forall i | 0 <= i < |rest| ensures WellFormed(rest[i].val) {
        assert rest[i] == members[if i < at then i else i + 1];
      }
    }
  }

  /** cJSON_DetachItemFromObject on a member list. */
  method DetachMember(members: seq<Member>, key: string) returns (rest: seq<Member>, item: Option<Json>)
    ensures rest == Without(members, key) && item == Item(Obj(members), key)
    ensures var at := Find(members, key);
            rest == if at < |members| then members[..at] + members[at + 1..] else members
    ensures WellFormed(Obj(members)) ==>
              && WellFormed(Obj(rest)) && (item.Some? ==> WellFormed(item.value))
              && Fields(rest) == Fields(members) - {Fold(key)}
              && MeaningOf(item) == Get(Fields(members), Fold(key))
  {
    if WellFormed(Obj(members)) { WithoutMeans(members, key); }
    hide Fields, Meaning, Fold, WellFormed;
    var at := Find(members, key);
    if at == |members| { return members, None; }
    rest := members[..at] + members[at + 1..];
    item := Some(members[at].val);
  }

  lemma AddedMeans(members: seq<Member>, key: string, item: Json)
    requires WellFormed(Obj(members)) && WellFormed(item) && Fold(key) !in Fields(members)
    ensures var r := members + [Member(key, item)];
            WellFormed(Obj(r)) && Fields(r) == Fields(members)[Fold(key) := Meaning(item)]
  {
    hide Fields, Meaning, Fold;
    FieldsAppend(members, Member(key, item));
  }

  /** cJSON_AddItemToObject: the item goes to the end of the list. */
  method AddMember(members: seq<Member>, key: string, item: Json) returns (r: seq<Member>)
    ensures r == members + [Member(key, item)]
    ensures WellFormed(Obj(members)) && WellFormed(item) && Fold(key) !in Fields(members) ==>
              WellFormed(Obj(r)) && Fields(r) == Fields(members)[Fold(key) := Meaning(item)]
  {
    hide Fields, Meaning, Fold;
    if WellFormed(Obj(members)) && WellFormed(item) && Fold(key) !in Fields(members) { AddedMeans(members, key, item); }
    r := members + [Member(key, item)];
  }

  /** cJSON_DeleteItemFromObject followed by cJSON_AddItemToObject. */
  method SetMember(members: seq<Member>, key: string, item: Json) returns (r: seq<Member>)
    requires WellFormed(Obj(members)) && WellFormed(item)
    ensures WellFormed(Obj(r)) && Fields(r) == Fields(members)[Fold(key) := Meaning(item)]
    ensures var at := Find(members, key);
            r == (if at < |members| then members[..at] + members[at + 1..] else members) + [Member(key, item)]
  {
    hide Fields, Meaning, Fold;
    var rest, _ := DetachMember(members, key);
    r := AddMember(rest, key, item);
  }

  lemma MeaningSlices(items: seq<Json>, i: nat)
    requires i <= |items|
    ensures MeaningAll(items[..i]) == MeaningAll(items)[..i] && MeaningAll(items[i..]) == MeaningAll(items)[i..]
  {
    assert items == items[..i] + items[i..];
    MeaningAllConcat(items[..i], items[i..]);
  }

  /** detach_item_from_array. */
  method DetachItem(items: seq<Json>, which: nat) returns (rest: seq<Json>, item: Option<Json>)
    requires WellFormed(Arr(items))
    ensures which >= |items| ==> rest == items && item == None
    ensures which < |items| ==>
              item == Some(items[which]) && WellFormed(Arr(rest))
              && MeaningAll(rest) == MeaningAll(items)[..which] + MeaningAll(items)[which + 1..]
  {
    if which >= |items| { return items, None; }
    MeaningSlices(items, which);
    MeaningSlices(items, which + 1);
    MeaningAllConcat(items[..which], items[which + 1..]);
    return items[..which] + items[which + 1..], Some(items[which]);
  }

  /** insert_item_in_array: false when the position is past the end. */
  method InsertItem(items: seq<Json>, which: nat, item: Json) returns (r: seq<Json>, done: bool)
    requires WellFormed(Arr(items)) && WellFormed(item)
    ensures done <==> which <= |items|
    ensures !done ==> r == items
    ensures done ==>
              WellFormed(Arr(r))
              && MeaningAll(r) == MeaningAll(items)[..which] + [Meaning(item)] + MeaningAll(items)[which..]
  {
    if which > |items| { return items, false; }
    MeaningSlices(items, which);
    MeaningAllConcat(items[..which] + [item], items[which..]);
    MeaningAllConcat(items[..which], [item]);
    assert MeaningAll([item]) == [Meaning(item)];
    return items[..which] + [item] + items[which..], true;
  }
}
