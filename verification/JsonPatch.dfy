/** JSON Patch as cJSON_Utils runs it: pointer strings, patching a document in place, and diffing. */
module JsonPatch {
  import opened Basics
  import opened Decimal
  import opened Json
  import opened JsonCompare
  import opened JsonList
  import opened PatchDiff
  import opened PatchRfc
  import opened PatchTree

  // ---------------------------------------------------------------- elements of a patch array

  /** What apply_patch takes from an element; the value may be missing. */
  datatype Patch = Patch(op: Op, path: string, value: Option<Json>)

  /** An element, or the status it is refused with. The operations move, copy and test are not modelled. */
  datatype Reading = Read(patch: Patch) | Malformed(status: int) | NotModelled

  function OpName(op: Op): string {
    match op
    case Add => "add"
    case Remove => "remove"
    case Replace => "replace"
  }

  /** The start of apply_patch, with decode_patch_operation. */
  function ReadPatch(j: Json): Reading {
    var path, op := Item(j, "path"), Item(j, "op");
    if path.None? || !path.value.Str? then Malformed(2)
    else if op.None? || !op.value.Str? then Malformed(3)
    else if op.value.s == "add" then Read(Patch(Add, path.value.s, Item(j, "value")))
    else if op.value.s == "remove" then Read(Patch(Remove, path.value.s, Item(j, "value")))
    else if op.value.s == "replace" then Read(Patch(Replace, path.value.s, Item(j, "value")))
    else if op.value.s in {"move", "copy", "test"} then NotModelled
    else Malformed(3)
  }

  /** The object of section 4 of RFC 6902 for an operation. */
  function Composed(op: Op, path: string, value: Option<Json>): Json {
    var start := [Member("op", Str(OpName(op))), Member("path", Str(path))];
    Obj(if value.None? then start else start + [Member("value", value.value)])
  }

  lemma FoldedNames()
    ensures Fold("op") == "op" && Fold("path") == "path" && Fold("value") == "value"
  {
    assert Fold("e") == "e" && Fold("h") == "h" && Fold("p") == "p";
    assert Fold("ue") == "ue" && Fold("th") == "th";
    assert Fold("lue") == "lue" && Fold("ath") == "ath";
    assert Fold("alue") == "alue";
  }

  lemma ComposedStart(op: Op, path: string, value: Option<Json>)
    ensures Item(Composed(op, path, value), "op") == Some(Str(OpName(op)))
    ensures Item(Composed(op, path, value), "path") == Some(Str(path))
  {
    hide OpName, Fold, Find, Item;
    FoldedNames();
    ItemAt(Composed(op, path, value).members, 0);
    ItemAt(Composed(op, path, value).members, 1);
  }

  lemma ComposedValue(op: Op, path: string, value: Option<Json>)
    ensures Item(Composed(op, path, value), "value") == value
  {
    hide OpName, Fold, Find;
    FoldedNames();
    var members := Composed(op, path, value).members;
    assert |Fold("op")| == 2 && |Fold("path")| == 4 && |Fold("value")| == 5;
    if value.Some? {
      ItemAt(members, 2);
    } else {
      assert Find(members, "value") == |members|;
    }
  }

  /** A composed element is read back as what it was composed from. */
  lemma ReadComposed(op: Op, path: string, value: Option<Json>)
    requires value.Some? ==> WellFormed(value.value)
    ensures ReadPatch(Composed(op, path, value)) == Read(Patch(op, path, value))
    ensures WellFormed(Composed(op, path, value))
  {
    ComposedStart(op, path, value);
    ComposedValue(op, path, value);
    FoldedNames();
    hide Item, Fold;
    assert |Fold("op")| == 2 && |Fold("path")| == 4 && |Fold("value")| == 5;
  }

  /** The three operations by their names in section 4 of RFC 6902, and the other elements. */
  lemma OperationNames(name: string, path: string, value: Json)
    ensures var j := Obj([Member("op", Str(name)), Member("path", Str(path)), Member("value", value)]);
            ReadPatch(j) ==
              if name == "add" then Read(Patch(Add, path, Some(value)))
              else if name == "remove" then Read(Patch(Remove, path, Some(value)))
              else if name == "replace" then Read(Patch(Replace, path, Some(value)))
              else if name in {"move", "copy", "test"} then NotModelled
              else Malformed(3)
    ensures ReadPatch(Obj([Member("op", Str(name))])) == Malformed(2)
    ensures ReadPatch(Obj([Member("path", Str(path))])) == Malformed(3)
  {
    hide Fold, Find;
    FoldedNames();
    assert |Fold("op")| == 2 && |Fold("path")| == 4 && |Fold("value")| == 5;
    var members := [Member("op", Str(name)), Member("path", Str(path)), Member("value", value)];
    FindIs(members, "op", 0);
    FindIs(members, "path", 1);
    FindIs(members, "value", 2);
    var one, other := [Member("op", Str(name))], [Member("path", Str(path))];
    assert Find(one, "path") == 1;
    assert Find(other, "op") == 1;
    FindIs(other, "path", 0);
  }

  // ---------------------------------------------------------------- pointer strings

  ghost predicate PlainPath(path: seq<string>) {
    forall i :: 0 <= i < |path| ==> PlainToken(path[i])
  }

  /** The length of the first token of a string. */
  function TokenLength(s: string): (n: nat)
    ensures n <= |s| && '/' !in s[..n] && (n < |s| ==> s[n] == '/')
  {
    if s == [] || s[0] == '/' then 0 else TokenLength(s[1..]) + 1
  }

  /** The tokens get_item_from_pointer follows: none unless the string starts with a slash. */
  function Tokens(pointer: string): seq<string> {
    if pointer == [] || pointer[0] != '/' then [] else
      var n := TokenLength(pointer[1..]);
      [pointer[1..][..n]] + Tokens(pointer[1..][n..])
  }

  lemma {:induction false} TokenLengthIs(token: string, rest: string)
    requires '/' !in token && (rest == [] || rest[0] == '/')
    ensures TokenLength(token + rest) == |token|
  {
    if token == [] {
      assert token + rest == rest;
    } else {
      assert (token + rest)[1..] == token[1..] + rest;
      TokenLengthIs(token[1..], rest);
    }
  }

  lemma TokensCons(token: string, rest: string)
    requires '/' !in token && (rest == [] || rest[0] == '/')
    ensures Tokens("/" + token + rest) == [token] + Tokens(rest)
  {
    var pointer := "/" + token + rest;
    TokenLengthIs(token, rest);
    assert pointer[1..] == token + rest;
    assert (token + rest)[..|token|] == token && (token + rest)[|token|..] == rest;
  }

  lemma {:induction false} TokensOfRender(path: seq<string>)
    requires PlainPath(path)
    ensures Tokens(Render(path)) == path
  {
    if path != [] {
      TokensCons(path[0], Render(path[1..]));
      TokensOfRender(path[1..]);
    }
  }

  /** strrchr(path, '/'): the position of the last slash, or -1. */
  function LastSlash(path: string): (at: int)
    ensures at == -1 ==> '/' !in path
    ensures at != -1 ==> 0 <= at < |path| && path[at] == '/' && '/' !in path[at + 1..]
  {
    if path == [] then -1
    else if path[|path| - 1] == '/' then |path| - 1
    else
      var at := LastSlash(path[..|path| - 1]);
      assert path == path[..|path| - 1] + [path[|path| - 1]];
      assert at != -1 ==> path[at + 1..] == path[..|path| - 1][at + 1..] + [path[|path| - 1]];
      at
  }

  /** The tokens of a path as the patch code reads it: its last token after the last slash, the others
      from the string before it. */
  function PathTokens(path: string): seq<string> {
    var at := LastSlash(path);
    if at == -1 then [] else Tokens(path[..at]) + [path[at + 1..]]
  }

  /** Splitting off the last token. */
  lemma {:induction false} TokensSplit(parent: string, child: string)
    requires '/' !in child
    requires parent == [] || parent[0] == '/'
    ensures Tokens(parent + "/" + child) == Tokens(parent) + [child]
    decreases |parent|
  {
    hide Tokens;
    if parent == [] {
      assert parent + "/" + child == "/" + child + [];
      TokensCons(child, []);
      assert Tokens([]) == [] by { EmptyPointer(); }
    } else {
      var n := TokenLength(parent[1..]);
      var token, rest := parent[1..][..n], parent[1..][n..];
      assert parent == "/" + token + rest;
      assert parent + "/" + child == "/" + token + (rest + "/" + child);
      TokensCons(token, rest);
      TokensCons(token, rest + "/" + child);
      TokensSplit(rest, child);
      assert [token] + (Tokens(rest) + [child]) == [token] + Tokens(rest) + [child];
    }
  }

  lemma EmptyPointer()
    ensures Tokens([]) == []
  {
  }

  lemma PathTokensOfRender(path: seq<string>)
    requires PlainPath(path)
    ensures PathTokens(Render(path)) == path
    ensures Render(path) == [] || Render(path)[0] == '/'
    ensures path != [] ==> '/' in Render(path)
  {
    if path != [] {
      var s := Render(path);
      var at := LastSlash(s);
      assert '/' in s;
      assert s == s[..at] + "/" + s[at + 1..];
      assert at > 0 ==> s[..at][0] == '/';
      TokensSplit(s[..at], s[at + 1..]);
      TokensOfRender(path);
    }
  }

  lemma {:induction false} PointerIsTokens(s: string)
    requires s == [] || s[0] == '/'
    ensures Pointer(s) == Some(Tokens(s))
    decreases |s|
  {
    if s != [] {
      var token := UpToSlash(s[1..]);
      var rest := s[1 + |token|..];
      assert s == "/" + token + rest;
      TokensCons(token, rest);
      PointerCons(token, rest);
      PointerIsTokens(rest);
    }
  }

  /** The patch code reads a pointer as the tokens it has. Any other path with a slash it reads as the one
      token behind the last slash. */
  lemma PathTokensIs(path: string)
    requires '/' in path
    ensures PathTokens(path) == if Pointer(path).Some? then Pointer(path).value else [path[LastSlash(path) + 1..]]
    ensures Pointer(path).Some? <==> path[0] == '/'
  {
    hide Tokens, Pointer, LastSlash;
    var at := LastSlash(path);
    assert path == path[..at] + "/" + path[at + 1..];
    if path[0] == '/' {
      assert at > 0 ==> path[..at][0] == '/';
      TokensSplit(path[..at], path[at + 1..]);
      PointerIsTokens(path);
    } else {
      assert path[..at] != [] && path[..at][0] == path[0];
      NoTokensWithout(path[..at]);
      NoPointer(path);
    }
  }

  lemma NoTokensWithout(s: string)
    requires s != [] && s[0] != '/'
    ensures Tokens(s) == []
  {
  }

  lemma NoPointer(s: string)
    requires s != [] && s[0] != '/'
    ensures Pointer(s) == None
  {
  }

  // ---------------------------------------------------------------- nodes of a document

  /** A pointer to a node of a document: the child positions that lead to it. */
  type Position = seq<nat>

  predicate HasNode(j: Json, pos: Position) {
    pos == [] ||
    (match j
     case Arr(items) => pos[0] < |items| && HasNode(items[pos[0]], pos[1..])
     case Obj(members) => pos[0] < |members| && HasNode(members[pos[0]].val, pos[1..])
     case _ => false)
  }

  function NodeAt(j: Json, pos: Position): Json
    requires HasNode(j, pos)
  {
    if pos == [] then j else
      match j
      case Arr(items) => NodeAt(items[pos[0]], pos[1..])
      case Obj(members) => NodeAt(members[pos[0]].val, pos[1..])
  }

  /** The document with one node overwritten. */
  function Put(j: Json, pos: Position, x: Json): Json
    requires HasNode(j, pos)
  {
    if pos == [] then x else
      match j
      case Arr(items) => Arr(items[pos[0] := Put(items[pos[0]], pos[1..], x)])
      case Obj(members) =>
        var m := members[pos[0]];
        Obj(members[pos[0] := m.(val := Put(m.val, pos[1..], x))])
  }

  /** The position of the child a token names, if there is one. */
  function ChildPosition(j: Json, token: string): Option<nat> {
    match j
    case Arr(items) =>
      var i := DecodeIndex(token);
      if i.Some? && i.value < |items| then i else None
    case Obj(members) =>
      var i := Find(members, token);
      if i < |members| then Some(i) else None
    case _ => None
  }

  function Locate(j: Json, tokens: seq<string>): (pos: Option<Position>)
    ensures pos.Some? ==> HasNode(j, pos.value)
    decreases |tokens|
  {
    if tokens == [] then Some([]) else
      var i := ChildPosition(j, tokens[0]);
      if i.None? then None else
        var c := NodeAt(j, [i.value]);
        var rest := Locate(c, tokens[1..]);
        if rest.None? then None else
          OneStep(j, i.value);
          NodeAtConcat(j, [i.value], rest.value);
          Some([i.value] + rest.value)
  }

  lemma OneStep(j: Json, i: nat)
    requires (j.Arr? && i < |j.items|) || (j.Obj? && i < |j.members|)
    ensures HasNode(j, [i]) && NodeAt(j, [i]) == if j.Arr? then j.items[i] else j.members[i].val
  {
    assert [i][1..] == [];
  }

  lemma {:induction false} NodeAtConcat(j: Json, p: Position, q: Position)
    requires HasNode(j, p) && HasNode(NodeAt(j, p), q)
    ensures HasNode(j, p + q) && NodeAt(j, p + q) == NodeAt(NodeAt(j, p), q)
  {
    if p == [] {
      assert p + q == q;
    } else {
      assert (p + q)[1..] == p[1..] + q;
      match j
      case Arr(items) => NodeAtConcat(items[p[0]], p[1..], q);
      case Obj(members) => NodeAtConcat(members[p[0]].val, p[1..], q);
    }
  }

  /** One turn of get_item_from_pointer: the child the next token names, and the rest of the pointer. */
  lemma LocateStep(j: Json, pointer: string)
    requires pointer != [] && pointer[0] == '/'
    ensures var n := TokenLength(pointer[1..]);
            var i := ChildPosition(j, pointer[1..][..n]);
            if i.None? then Locate(j, Tokens(pointer)) == None
            else
              HasNode(j, [i.value])
              && var below := Locate(NodeAt(j, [i.value]), Tokens(pointer[1..][n..]));
                 Locate(j, Tokens(pointer)) == if below.None? then None else Some([i.value] + below.value)
  {
    var n := TokenLength(pointer[1..]);
    var token, rest := pointer[1..][..n], Tokens(pointer[1..][n..]);
    assert ([token] + rest)[1..] == rest;
    var i := ChildPosition(j, token);
    if i.Some? { OneStep(j, i.value); }
  }

  lemma NothingLeft(j: Json, pointer: string)
    requires pointer == [] || pointer[0] != '/'
    ensures Locate(j, Tokens(pointer)) == Some([])
  {
  }

  /** The tree with the node at the end of the tokens replaced. */
  function PutTree(t: Tree, tokens: seq<string>, x: Tree): Tree
    requires Follow(t, tokens).Some?
  {
    if tokens == [] then x
    else WithChild(t, tokens[0], PutTree(Child(t, tokens[0]).value, tokens[1..], x))
  }

  lemma ChildMeaning(j: Json, token: string, x: Json)
    requires WellFormed(j)
    ensures var i := ChildPosition(j, token);
            match i
            case None => Child(Meaning(j), token).None?
            case Some(n) =>
              HasNode(j, [n]) && WellFormed(NodeAt(j, [n]))
              && Child(Meaning(j), token) == Some(Meaning(NodeAt(j, [n])))
              && Meaning(Put(j, [n], x)) == WithChild(Meaning(j), token, Meaning(x))
              && (WellFormed(x) ==> WellFormed(Put(j, [n], x)))
  {
    hide DecodeIndex, Fold, Find, Fields;
    match j
    case Arr(items) =>
      var i := DecodeIndex(token);
      if i.Some? && i.value < |items| {
        MeaningAt(items, i.value);
        MeaningUpdate(items, i.value, x);
      }
    case Obj(members) =>
      FindIsLookup(members, token);
      var n := Find(members, token);
      if n < |members| { FieldsUpdate(members, n, x); }
    case _ =>
  }

  lemma {:induction false} MeaningUpdate(items: seq<Json>, i: nat, x: Json)
    requires i < |items|
    ensures MeaningAll(items[i := x]) == MeaningAll(items)[i := Meaning(x)]
  {
    assert items[i := x] == items[..i] + [x] + items[i + 1..];
    assert items == items[..i] + [items[i]] + items[i + 1..];
    MeaningAllConcat(items[..i] + [x], items[i + 1..]);
    MeaningAllConcat(items[..i], [x]);
    MeaningAllConcat(items[..i] + [items[i]], items[i + 1..]);
    MeaningAllConcat(items[..i], [items[i]]);
  }

  /** Following tokens in the document is following them in its tree, and so is overwriting. */
  lemma {:induction false} LocateMeaning(j: Json, tokens: seq<string>, x: Json)
    requires WellFormed(j)
    ensures match Locate(j, tokens)
            case None => Follow(Meaning(j), tokens).None?
            case Some(pos) =>
              WellFormed(NodeAt(j, pos))
              && Follow(Meaning(j), tokens) == Some(Meaning(NodeAt(j, pos)))
              && Meaning(Put(j, pos, x)) == PutTree(Meaning(j), tokens, Meaning(x))
              && (WellFormed(x) ==> WellFormed(Put(j, pos, x)))
    decreases |tokens|
  {
    hide Meaning, Child, WithChild;
    if tokens != [] {
      ChildMeaning(j, tokens[0], x);
      var i := ChildPosition(j, tokens[0]);
      if i.Some? {
        var c := NodeAt(j, [i.value]);
        LocateMeaning(c, tokens[1..], x);
        var rest := Locate(c, tokens[1..]);
        if rest.Some? {
          ChildMeaning(j, tokens[0], Put(c, rest.value, x));
          PutNested(j, i.value, rest.value, x);
        }
      }
    }
  }

  lemma PutNested(j: Json, i: nat, rest: Position, x: Json)
    requires HasNode(j, [i]) && HasNode(NodeAt(j, [i]), rest)
    ensures HasNode(j, [i] + rest) && NodeAt(j, [i] + rest) == NodeAt(NodeAt(j, [i]), rest)
    ensures Put(j, [i] + rest, x) == Put(j, [i], Put(NodeAt(j, [i]), rest, x))
  {
    NodeAtConcat(j, [i], rest);
    OneStep(j, i);
    assert ([i] + rest)[1..] == rest && [i][1..] == [];
  }

  /** Editing the child of a node found by its tokens is applying the operation to the tree. */
  lemma {:induction false} ApplyAtParent(t: Tree, op: Op, parent: seq<string>, token: string, v: Tree)
    requires op != Replace
    ensures Apply(t, op, parent + [token], v) ==
            match Follow(t, parent)
            case None => None
            case Some(p) =>
              var p' := EditChild(p, op, token, v);
              if p'.None? then None else Some(PutTree(t, parent, p'.value))
    decreases |parent|
  {
    hide EditChild, WithChild;
    if parent == [] {
      assert parent + [token] == [token];
    } else {
      assert (parent + [token])[1..] == parent[1..] + [token];
      var c := Child(t, parent[0]);
      if c.Some? { ApplyAtParent(c.value, op, parent[1..], token, v); }
    }
  }

  // ---------------------------------------------------------------- the document

  function MeaningOrNull(v: Option<Json>): Tree {
    if v.None? then TNull else Meaning(v.value)
  }

  method DetachElement(items: seq<Json>, token: string) returns (rest: Json, item: Option<Json>)
    requires WellFormed(Arr(items))
    ensures match EditChild(Meaning(Arr(items)), Remove, token, TNull)
            case None => item == None && rest == Arr(items)
            case Some(t) => item.Some? && WellFormed(rest) && Meaning(rest) == t
  {
    hide DecodeIndex, MeaningAll;
    var i := DecodeIndex(token);
    if i.None? { return Arr(items), None; }
    var left;
    left, item := DetachItem(items, i.value);
    rest := if item.Some? then Arr(left) else Arr(items);
  }

  method DetachField(members: seq<Member>, token: string) returns (rest: Json, item: Option<Json>)
    requires WellFormed(Obj(members))
    ensures match EditChild(Meaning(Obj(members)), Remove, token, TNull)
            case None => item == None && rest == Obj(members)
            case Some(t) => item.Some? && WellFormed(rest) && Meaning(rest) == t
  {
    hide Find, Fold, Fields, Without, Item, WellFormed;
    var left;
    left, item := DetachMember(members, token);
    rest := if item.Some? then Obj(left) else Obj(members);
  }

  /** Detaching the child a token names from a node. */
  method DetachChild(parent: Json, token: string) returns (rest: Json, item: Option<Json>)
    requires WellFormed(parent)
    ensures match EditChild(Meaning(parent), Remove, token, TNull)
            case None => item == None && rest == parent
            case Some(t) => item.Some? && WellFormed(rest) && Meaning(rest) == t
  {
    hide DecodeIndex, Find, Fold, Fields, MeaningAll;
    match parent {
      case Arr(items) => rest, item := DetachElement(items, token);
      case Obj(members) => rest, item := DetachField(members, token);
      case _ => rest, item := parent, None;
    }
  }

  /** Adding a value under a token: the status of apply_patch and the changed node. A scalar takes
      nothing, and that is no error. */
  method AddChild(parent: Json, token: string, value: Json) returns (status: int, changed: Json)
    requires WellFormed(parent) && WellFormed(value)
    ensures match EditChild(Meaning(parent), Add, token, Meaning(value))
            case None => status == (if DecodeIndex(token).None? then 11 else 10) && changed == parent
            case Some(t) => status == 0 && WellFormed(changed) && Meaning(changed) == t
  {
    changed, status := parent, 0;
    match parent {
      case Arr(items) =>
        DashIsNoIndex();
        if CompareStrings(token, "-") == 0 {
          CompareIsEquality(token, "-");
          var more, _ := InsertItem(items, |items|, value);
          assert MeaningAll(items)[|items|..] == [] && MeaningAll(items)[..|items|] == MeaningAll(items);
          changed := Arr(more);
        } else {
          CompareIsEquality(token, "-");
          var i := DecodeIndex(token);
          if i.None? { return 11, parent; }
          var more, done := InsertItem(items, i.value, value);
          if !done { return 10, parent; }
          changed := Arr(more);
        }
      case Obj(members) =>
        var more := SetMember(members, token, value);
        changed := Obj(more);
      case _ =>
    }
  }

  /** The target of a patch. No root stands for the invalid node that removing the root leaves. */
  class Document {
    var root: Option<Json>

    ghost predicate Valid()
      reads this
    {
      root.Some? ==> WellFormed(root.value)
    }

    constructor (j: Json)
      requires WellFormed(j)
      ensures Valid() && root == Some(j)
    {
      root := Some(j);
    }

    /** get_item_from_pointer: follows the tokens while the pointer has one. */
    method GetItemFromPointer(pointer: string) returns (pos: Option<Position>)
      requires root.Some?
      ensures pos == Locate(root.value, Tokens(pointer))
    {
      hide Locate, Tokens, ChildPosition, TokenLength;
      var at: Position := [];
      var rest := pointer;
      var current := root.value;
      ghost var found := Locate(root.value, Tokens(pointer));
      assert found.Some? ==> [] + found.value == found.value;
      while rest != [] && rest[0] == '/'
        invariant HasNode(root.value, at) && NodeAt(root.value, at) == current
        invariant var below := Locate(current, Tokens(rest));
                  found == if below.None? then None else Some(at + below.value)
        decreases |rest|
      {
        hide HasNode, NodeAt;
        LocateStep(current, rest);
        var n := TokenLength(rest[1..]);
        var i := ChildPosition(current, rest[1..][..n]);
        if i.None? { return None; }
        rest := rest[1..][n..];
        NodeAtConcat(root.value, at, [i.value]);
        current := NodeAt(current, [i.value]);
        ghost var below := Locate(current, Tokens(rest));
        assert below.Some? ==> at + ([i.value] + below.value) == at + [i.value] + below.value;
        at := at + [i.value];
      }
      NothingLeft(current, rest);
      assert at + [] == at;
      return Some(at);
    }

    /** detach_path. */
    method DetachPath(path: string) returns (item: Option<Json>)
      requires Valid() && '~' !in path
      modifies this
      ensures Valid()
      ensures root.Some? <==> old(root).Some?
      ensures old(root).None? || '/' !in path ==> item == None && root == old(root)
      ensures old(root).Some? && '/' in path ==>
                match Apply(Meaning(old(root).value), Remove, PathTokens(path), TNull)
                case None => item == None && root == old(root)
                case Some(t) => item.Some? && Meaning(root.value) == t
    {
      hide Meaning, Apply, EditChild, PutTree, Locate, Tokens;
      var at := LastSlash(path);
      if at == -1 || root.None? { return None; }
      var pos := GetItemFromPointer(path[..at]);
      ApplyAtParent(Meaning(root.value), Remove, Tokens(path[..at]), path[at + 1..], TNull);
      LocateMeaning(root.value, Tokens(path[..at]), Null);
      if pos.None? { return None; }
      var rest;
      rest, item := DetachChild(NodeAt(root.value, pos.value), path[at + 1..]);
      if item.Some? {
        LocateMeaning(root.value, Tokens(path[..at]), rest);
        root := Some(Put(root.value, pos.value, rest));
      }
    }

    /** The last part of apply_patch: finds the parent and adds the value there. */
    method AddAtPath(path: string, value: Json) returns (status: int)
      requires Valid() && WellFormed(value) && '~' !in path
      modifies this
      ensures Valid()
      ensures root.Some? <==> old(root).Some?
      ensures '/' !in path ==> status == 9 && root == old(root)
      ensures old(root).None? && '/' in path ==> status == if LastSlash(path) > 0 && path[0] == '/' then 9 else 0
      ensures old(root).Some? && '/' in path ==>
                match Apply(Meaning(old(root).value), Add, PathTokens(path), Meaning(value))
                case None => status == AddFailure(Meaning(old(root).value), PathTokens(path)) && root == old(root)
                case Some(t) => status == 0 && Meaning(root.value) == t
    {
      hide Meaning, Apply, EditChild, PutTree, Locate, Tokens;
      var at := LastSlash(path);
      if at == -1 { return 9; }
      if root.None? {
        return if at > 0 && path[0] == '/' then 9 else 0;
      }
      var pos := GetItemFromPointer(path[..at]);
      ApplyAtParent(Meaning(root.value), Add, Tokens(path[..at]), path[at + 1..], Meaning(value));
      LocateMeaning(root.value, Tokens(path[..at]), Null);
      if pos.None? { return 9; }
      var changed;
      status, changed := AddChild(NodeAt(root.value, pos.value), path[at + 1..], value);
      LocateMeaning(root.value, Tokens(path[..at]), changed);
      if status == 0 {
        root := Some(Put(root.value, pos.value, changed));
      }
    }

    /** apply_patch. */
    method ApplyPatch(element: Json) returns (status: int)
      requires Valid() && Modelled(element)
      modifies this
      ensures Valid()
      ensures (status, MeaningOf(root)) == OneOutcome(MeaningOf(old(root)), element)
    {
      match ReadPatch(element) {
        case Malformed(code) => return code;
        case Read(patch) => status := CarryOut(patch);
      }
    }

    /** apply_patch, from where the element is read. */
    method CarryOut(patch: Patch) returns (status: int)
      requires Valid() && '~' !in patch.path && (patch.value.Some? ==> WellFormed(patch.value.value))
      modifies this
      ensures Valid()
      ensures (status, MeaningOf(root)) == Outcome(MeaningOf(old(root)), patch)
    {
      hide Meaning, Apply, Tokens;
      if patch.path == [] {
        if patch.op == Remove {
          root := None;
          return 0;
        }
        if patch.value == None { return 7; }
        root := patch.value;
        return 0;
      }
      ghost var tokens := PathTokens(patch.path);
      if patch.op != Add {
        var oldItem := DetachPath(patch.path);
        if old(root).Some? && '/' in patch.path {
          ReplaceIsRemoveThenAdd(Meaning(old(root).value), tokens, MeaningOrNull(patch.value));
          RemoveIgnoresValue(Meaning(old(root).value), tokens, MeaningOrNull(patch.value));
        }
        if oldItem == None { return 13; }
        if patch.op == Remove { return 0; }
      }
      if patch.value == None { return 7; }
      status := AddAtPath(patch.path, patch.value.value);
    }

    /** cJSONUtils_ApplyPatches: in order, until one fails. */
    method ApplyPatches(patches: Json) returns (status: int)
      requires Valid() && (patches.Arr? ==> forall p :: p in patches.items ==> Modelled(p))
      modifies this
      ensures Valid()
      ensures !patches.Arr? ==> status == 1 && root == old(root)
      ensures patches.Arr? ==> (status, MeaningOf(root)) == Outcomes(MeaningOf(old(root)), patches.items)
    {
      hide Meaning, OneOutcome;
      if !patches.Arr? { return 1; }
      var i := 0;
      ghost var goal := Outcomes(MeaningOf(root), patches.items);
      assert patches.items[0..] == patches.items;
      while i < |patches.items|
        invariant 0 <= i <= |patches.items| && Valid()
        invariant goal == Outcomes(MeaningOf(root), patches.items[i..])
      {
        assert patches.items[i] in patches.items && patches.items[i..][1..] == patches.items[i + 1..];
        status := ApplyPatch(patches.items[i]);
        if status != 0 { return; }
        i := i + 1;
      }
      status := 0;
    }
  }

  /** Paths without escapes, values with distinct keys, and one of the modelled operations, or none. */
  ghost predicate Modelled(element: Json) {
    && WellFormed(element)
    && match ReadPatch(element)
       case Read(p) => '~' !in p.path && (p.value.Some? ==> WellFormed(p.value.value))
       case Malformed(_) => true
       case NotModelled => false
  }

  // ---------------------------------------------------------------- what becomes of a document

  /** Why a value cannot be added: there is no parent, the token is no index, or it is past the end. */
  function AddFailure(t: Tree, path: seq<string>): int {
    if path == [] || Follow(t, path[..|path| - 1]).None? then 9
    else if DecodeIndex(path[|path| - 1]).None? then 11
    else 10
  }

  /** The status of one patch, for a path without escapes, and the document after it; None is the invalid
      node left by removing the root. A replacement whose value is missing has removed the old value when
      that is noticed. */
  function Outcome(t: Option<Tree>, p: Patch): (int, Option<Tree>) {
    var tokens := PathTokens(p.path);
    var v := MeaningOrNull(p.value);
    var removed := if t.None? || '/' !in p.path then None else Apply(t.value, Remove, tokens, v);
    if p.path == [] then
      if p.op == Remove then (0, None) else if p.value.None? then (7, t) else (0, Some(v))
    else if p.op != Add && removed.None? then (13, t)
    else if p.op == Remove then (0, removed)
    else if p.value.None? then (7, if p.op == Add then t else removed)
    else if '/' !in p.path then (9, t)
    else if t.None? then (if LastSlash(p.path) > 0 && p.path[0] == '/' then 9 else 0, None)
    else
      var done := Apply(t.value, p.op, tokens, v);
      if done.Some? then (0, done) else (AddFailure(t.value, tokens), t)
  }

  function OneOutcome(t: Option<Tree>, element: Json): (int, Option<Tree>) {
    match ReadPatch(element)
    case Malformed(status) => (status, t)
    case Read(p) => Outcome(t, p)
    case NotModelled => (3, t)
  }

  /** Patches in order, until one fails. */
  function Outcomes(t: Option<Tree>, elements: seq<Json>): (int, Option<Tree>)
    decreases |elements|
  {
    if elements == [] then (0, t) else
      var o := OneOutcome(t, elements[0]);
      if o.0 != 0 then o else Outcomes(o.1, elements[1..])
  }

  /** The status of every failure on a document that is there. */
  lemma FailureStatuses(t: Tree, p: Patch)
    requires '/' in p.path
    ensures var tokens := PathTokens(p.path);
            var n := |tokens| - 1;
            var missing := Apply(t, Remove, tokens, TNull).None?;
            var parent := Follow(t, tokens[..n]);
            Outcome(Some(t), p).0 ==
              if p.op != Add && missing then 13
              else if p.op != Remove && p.value.None? then 7
              else if p.op != Add || Apply(t, Add, tokens, MeaningOrNull(p.value)).Some? then 0
              else if parent.None? then 9
              else if DecodeIndex(tokens[n]).None? then 11
              else 10
  {
    hide LastSlash, DecodeIndex, Child, WithChild, EditChild;
    var tokens := PathTokens(p.path);
    assert p.path != [] && tokens != [] by { SlashedPath(p.path); }
    SameRemoval(t, tokens, MeaningOrNull(p.value), TNull);
    ReplaceIsRemoveThenAdd(t, tokens, MeaningOrNull(p.value));
  }

  lemma SlashedPath(path: string)
    requires '/' in path
    ensures path != [] && PathTokens(path) != []
  {
    hide Tokens;
  }

  /** A removal does not look at the value. */
  lemma {:induction false} SameRemoval(t: Tree, path: seq<string>, v: Tree, w: Tree)
    ensures Apply(t, Remove, path, v) == Apply(t, Remove, path, w)
    decreases |path|
  {
    if |path| > 1 && Child(t, path[0]).Some? {
      SameRemoval(Child(t, path[0]).value, path[1..], v, w);
    }
  }

  lemma {:induction false} RemovalChanges(t: Tree, path: seq<string>, v: Tree)
    ensures Apply(t, Remove, path, v) != Some(t)
    decreases |path|
  {
    if |path| == 1 {
      assert t.TObj? && Fold(path[0]) in t.fields ==> Fold(path[0]) !in t.fields - {Fold(path[0])};
    } else if |path| > 1 && Child(t, path[0]).Some? {
      RemovalChanges(Child(t, path[0]).value, path[1..], v);
      WithChildAgain(t, path[0], t, t);
    }
  }

  /** A patch that fails leaves the document as it was, exactly unless it is a replacement without a value
      at a place where there is something to remove. */
  lemma FailureKeeps(t: Tree, p: Patch)
    requires '~' !in p.path && Outcome(Some(t), p).0 != 0
    ensures Outcome(Some(t), p).1 == Some(t) <==>
            !(p.op == Replace && p.value.None? && '/' in p.path && Apply(t, Remove, PathTokens(p.path), TNull).Some?)
  {
    hide Apply, PathTokens, LastSlash, Follow, DecodeIndex;
    RemovalChanges(t, PathTokens(p.path), TNull);
  }

  /** Replacing the first element of [true] without saying by what removes it. */
  lemma ReplaceWithoutValue()
    ensures Outcome(Some(TArr([TTrue])), Patch(Replace, "/0", None)) == (7, Some(TArr([])))
  {
    assert LastSlash("/0"[..1]) == 0;
    assert LastSlash("/0") == 0;
    assert "/0"[..0] == "" && "/0"[1..] == "0";
    assert PathTokens("/0") == ["0"];
    assert IndexFrom("0", 1, 0) == Some(0);
    assert [TTrue][..0] + [TTrue][1..] == [];
  }

  /** A patch with a path without escapes, and a value where one is needed, that does not remove the root. */
  ghost predicate Complete(element: Json): (b: bool)
    ensures b ==> ReadPatch(element).Read?
  {
    ReadPatch(element).Read? &&
    var p := ReadPatch(element).patch;
    && '~' !in p.path
    && (p.op == Remove ==> p.path != [])
    && (p.op != Remove ==> p.value.Some?)
  }

  /** The path names the root, or a child of something. */
  ghost predicate Placed(element: Json): (b: bool)
    ensures b ==> Complete(element)
  {
    Complete(element) && (ReadPatch(element).patch.path == [] || '/' in ReadPatch(element).patch.path)
  }

  /** What the code does to one child when it carries out the patch. */
  function EditOf(element: Json): Edit
    requires Placed(element)
  {
    var p := ReadPatch(element).patch;
    Edit(p.op, PathTokens(p.path), if p.value.None? then Null else p.value.value)
  }

  function EditsOf(elements: seq<Json>): seq<Edit>
    requires forall p :: p in elements ==> Placed(p)
  {
    if elements == [] then [] else [EditOf(elements[0])] + EditsOf(elements[1..])
  }

  /** Such a patch succeeds exactly when its operation is possible, and does it. */
  lemma CompleteOutcome(t: Tree, element: Json)
    requires Placed(element)
    ensures var e := EditOf(element);
            var done := Apply(t, e.op, e.path, Meaning(e.value));
            var o := OneOutcome(Some(t), element);
            if done.Some? then o == (0, done) else o.0 != 0 && o.1 == Some(t)
  {
    hide Apply, ReadPatch, Meaning, AddFailure, PathTokens, LastSlash;
    var p := ReadPatch(element).patch;
    var e := EditOf(element);
    var v := MeaningOrNull(p.value);
    assert Meaning(e.value) == v by { assert Meaning(Null) == TNull by { NullMeansNull(); } }
    NoTokens(p.path);
    if p.path == [] {
      ApplyToRoot(t, p.op, v);
    } else {
      ReplaceIsRemoveThenAdd(t, e.path, v);
      assert AddFailure(t, e.path) != 0 by { AddFailureIsFailure(t, e.path); }
    }
  }

  lemma NoTokens(path: string)
    ensures PathTokens(path) == [] <==> '/' !in path
  {
  }

  lemma NullMeansNull()
    ensures Meaning(Null) == TNull
  {
  }

  lemma AddFailureIsFailure(t: Tree, path: seq<string>)
    ensures AddFailure(t, path) != 0
  {
  }

  /** Section 4 of RFC 6902 for one patch: its path is a JSON pointer, or it is an error. */
  function PatchedRfc(t: Tree, element: Json): Option<Tree>
    requires Complete(element)
  {
    var p := ReadPatch(element).patch;
    var path := Pointer(p.path);
    if path.None? then None else ApplyRfc(t, p.op, path.value, MeaningOrNull(p.value))
  }

  /** Section 5: in order, and all or nothing. */
  function PatchedAllRfc(t: Tree, elements: seq<Json>): Option<Tree>
    requires forall p :: p in elements ==> Complete(p)
    decreases |elements|
  {
    if elements == [] then Some(t) else
      var u := PatchedRfc(t, elements[0]);
      if u.None? then None else PatchedAllRfc(u.value, elements[1..])
  }

  /** What can be seen before the call of a patch that RFC 6902 calls an error and the code carries out. Its
      path is a pointer whose target only the code finds; or it is no pointer, but has a slash, and the
      root takes the operation under the text behind the last one. */
  predicate PatchDeparts(t: Tree, p: Patch) {
    var path := Pointer(p.path);
    if path.Some? then Departs(t, p.op, path.value)
    else '/' in p.path && Takes(t, p.op, p.path[LastSlash(p.path) + 1..])
  }

  /** The outcome of a patch is that of RFC 6902, an error that leaves the document alone included. */
  ghost predicate AsRfc(t: Tree, element: Json)
    requires Complete(element)
  {
    var done := PatchedRfc(t, element);
    var o := OneOutcome(Some(t), element);
    if done.Some? then o == (0, done) else o.0 != 0 && o.1 == Some(t)
  }

  /** A complete patch has the outcome RFC 6902 gives it, an error that leaves the document alone included,
      exactly unless it is one of those. */
  lemma PatchConforms(t: Tree, element: Json)
    requires Complete(element)
    ensures var done := PatchedRfc(t, element);
            var o := OneOutcome(Some(t), element);
            (if done.Some? then o == (0, done) else o.0 != 0 && o.1 == Some(t))
            <==> !PatchDeparts(t, ReadPatch(element).patch)
    ensures PatchedRfc(t, element).None? || !PatchDeparts(t, ReadPatch(element).patch)
  {
    hide PatchedRfc, OneOutcome, ReadPatch, PatchDeparts, Pointer;
    var p := ReadPatch(element).patch;
    if p.path == [] {
      RootConforms(t, element);
    } else if '/' !in p.path {
      SlashlessConforms(t, element);
    } else if Pointer(p.path).Some? {
      PointerConforms(t, element);
    } else {
      OtherPathConforms(t, element);
    }
  }

  lemma RootConforms(t: Tree, element: Json)
    requires Complete(element) && ReadPatch(element).patch.path == []
    ensures AsRfc(t, element) <==> !PatchDeparts(t, ReadPatch(element).patch)
    ensures PatchedRfc(t, element).None? || !PatchDeparts(t, ReadPatch(element).patch)
  {
    hide Apply, ApplyRfc, Departs, OneOutcome, ReadPatch, Pointer, PathTokens, LastSlash, Takes, Follow;
    var p := ReadPatch(element).patch;
    assert Pointer(p.path) == Some([]) by { EmptyIsPointer(); }
    NoTokens(p.path);
    CompleteOutcome(t, element);
    ValueOfEdit(element);
    Conforms(t, p.op, [], MeaningOrNull(p.value));
  }

  lemma SlashlessConforms(t: Tree, element: Json)
    requires Complete(element)
    requires var path := ReadPatch(element).patch.path; path != [] && '/' !in path
    ensures AsRfc(t, element) <==> !PatchDeparts(t, ReadPatch(element).patch)
    ensures PatchedRfc(t, element).None? || !PatchDeparts(t, ReadPatch(element).patch)
  {
    hide Apply, ApplyRfc, Departs, OneOutcome, ReadPatch, Pointer, PathTokens, LastSlash, Takes, Follow;
    NoPointer(ReadPatch(element).patch.path);
    NoSlashFails(t, element);
  }

  lemma PointerConforms(t: Tree, element: Json)
    requires Complete(element)
    requires var path := ReadPatch(element).patch.path; '/' in path && Pointer(path).Some?
    ensures AsRfc(t, element) <==> !PatchDeparts(t, ReadPatch(element).patch)
    ensures PatchedRfc(t, element).None? || !PatchDeparts(t, ReadPatch(element).patch)
  {
    hide Apply, ApplyRfc, Departs, OneOutcome, ReadPatch, Pointer, PathTokens, LastSlash, Takes, Follow;
    var p := ReadPatch(element).patch;
    CompleteOutcome(t, element);
    ValueOfEdit(element);
    PathTokensIs(p.path);
    Conforms(t, p.op, Pointer(p.path).value, MeaningOrNull(p.value));
  }

  lemma OtherPathConforms(t: Tree, element: Json)
    requires Complete(element)
    requires var path := ReadPatch(element).patch.path; '/' in path && Pointer(path).None?
    ensures AsRfc(t, element) <==> !PatchDeparts(t, ReadPatch(element).patch)
    ensures PatchedRfc(t, element).None? || !PatchDeparts(t, ReadPatch(element).patch)
  {
    hide Apply, ApplyRfc, Departs, OneOutcome, ReadPatch, Pointer, PathTokens, LastSlash, Takes, Follow;
    var p := ReadPatch(element).patch;
    CompleteOutcome(t, element);
    ValueOfEdit(element);
    PathTokensIs(p.path);
    PossibleAtRoot(t, p.op, p.path[LastSlash(p.path) + 1..], MeaningOrNull(p.value));
  }

  lemma EmptyIsPointer()
    ensures Pointer([]) == Some([])
  {
  }

  lemma ValueOfEdit(element: Json)
    requires Placed(element)
    ensures var p := ReadPatch(element).patch;
            EditOf(element).op == p.op && EditOf(element).path == PathTokens(p.path)
            && Meaning(EditOf(element).value) == MeaningOrNull(p.value)
  {
    hide ReadPatch, PathTokens;
  }

  lemma PossibleAtRoot(t: Tree, op: Op, token: string, v: Tree)
    ensures Apply(t, op, [token], v).Some? <==> Takes(t, op, token)
  {
    hide Apply, Takes;
    PossibleExactly(t, op, [token], v);
    assert [token][..0] == [];
  }

  lemma NoSlashFails(t: Tree, element: Json)
    requires Complete(element) && ReadPatch(element).patch.path != [] && '/' !in ReadPatch(element).patch.path
    ensures OneOutcome(Some(t), element).0 != 0 && OneOutcome(Some(t), element).1 == Some(t)
  {
    hide Apply, ReadPatch, PathTokens;
  }

  /** Complete patches that RFC 6902 allows, in order, are carried out as it says. */
  lemma {:induction false} PatchesConform(t: Tree, elements: seq<Json>)
    requires (forall p :: p in elements ==> Complete(p)) && PatchedAllRfc(t, elements).Some?
    ensures Outcomes(Some(t), elements) == (0, PatchedAllRfc(t, elements))
    decreases |elements|
  {
    hide Complete, OneOutcome, PatchedRfc, PatchDeparts;
    if elements != [] {
      assert elements[0] in elements;
      PatchConforms(t, elements[0]);
      PatchesConform(PatchedRfc(t, elements[0]).value, elements[1..]);
    }
  }

  /** The path "x/a" is no JSON pointer, and an error; the code removes the member a of the root. */
  lemma NoPointerIsObeyed()
    ensures var patch := Composed(Remove, "x/a", None);
            && Complete(patch)
            && PatchedRfc(TObj(map["a" := TNull]), patch) == None
            && OneOutcome(Some(TObj(map["a" := TNull])), patch) == (0, Some(TObj(map[])))
  {
    var t, patch := TObj(map["a" := TNull]), Composed(Remove, "x/a", None);
    ReadComposed(Remove, "x/a", None);
    TokensOfNoPointer();
    RemoveMember();
    hide ReadPatch, Composed, Pointer, PathTokens, LastSlash, Apply, OneOutcome, EditOf, OpName;
    ValueOfEdit(patch);
    NullMeansNull();
    CompleteOutcome(t, patch);
  }

  lemma TokensOfNoPointer()
    ensures Pointer("x/a") == None && PathTokens("x/a") == ["a"] && '/' in "x/a" && '~' !in "x/a"
  {
    assert "x/a"[1] == '/';
    assert LastSlash("x/a"[..2]) == 1;
    assert LastSlash("x/a") == 1 && "x/a"[2..] == "a";
    PathTokensIs("x/a");
  }

  lemma RemoveMember()
    ensures Apply(TObj(map["a" := TNull]), Remove, ["a"], TNull) == Some(TObj(map[]))
  {
    assert Fold("a") == "a";
    assert map["a" := TNull] - {"a"} == map[];
  }

  lemma ApplyToRoot(t: Tree, op: Op, v: Tree)
    ensures Apply(t, op, [], v) == if op == Remove then None else Some(v)
  {
  }

  /** The document after the edits before the first one that is impossible. */
  function Progress(t: Tree, edits: seq<Edit>): Tree
    decreases |edits|
  {
    if edits == [] then t else
      var u := Apply(t, edits[0].op, edits[0].path, Meaning(edits[0].value));
      if u.None? then t else Progress(u.value, edits[1..])
  }

  /** Complete patches succeed exactly when each operation is possible in its turn; otherwise the document
      is left where the first impossible one found it. */
  lemma {:induction false} CompleteOutcomes(t: Tree, elements: seq<Json>)
    requires forall p :: p in elements ==> Placed(p)
    ensures Outcomes(Some(t), elements).0 == 0 <==> ApplyAll(t, EditsOf(elements)).Some?
    ensures Outcomes(Some(t), elements).1 == Some(Progress(t, EditsOf(elements)))
    ensures ApplyAll(t, EditsOf(elements)).Some? ==>
              ApplyAll(t, EditsOf(elements)).value == Progress(t, EditsOf(elements))
    decreases |elements|
  {
    hide Placed, EditOf, OneOutcome, Apply, Meaning;
    if elements != [] {
      assert elements[0] in elements;
      CompleteOutcome(t, elements[0]);
      var e := EditOf(elements[0]);
      var u := Apply(t, e.op, e.path, Meaning(e.value));
      if u.Some? { CompleteOutcomes(u.value, elements[1..]); }
    }
  }

  lemma {:induction false} RemoveIgnoresValue(t: Tree, path: seq<string>, v: Tree)
    ensures Apply(t, Remove, path, v) == Apply(t, Remove, path, TNull)
    decreases |path|
  {
    if |path| > 1 {
      var c := Child(t, path[0]);
      if c.Some? { RemoveIgnoresValue(c.value, path[1..], v); }
    }
  }

  // ---------------------------------------------------------------- generating patches

  function PatchOf(path: string, e: Edit): Json {
    Composed(e.op, path + Render(e.path), if e.op == Remove then None else Some(e.value))
  }

  /** Edits written out below a path. */
  function Rendered(path: string, edits: seq<Edit>): seq<Json> {
    if edits == [] then [] else [PatchOf(path, edits[0])] + Rendered(path, edits[1..])
  }

  lemma RenderedFirst(path: string, edits: seq<Edit>)
    requires edits != []
    ensures Rendered(path, edits)[0] == PatchOf(path, edits[0])
    ensures Rendered(path, edits)[1..] == Rendered(path, edits[1..])
  {
  }

  lemma {:induction false} RenderedConcat(path: string, a: seq<Edit>, b: seq<Edit>)
    ensures Rendered(path, a + b) == Rendered(path, a) + Rendered(path, b)
  {
    if a == [] {
      assert a + b == b;
    } else {
      assert (a + b)[1..] == a[1..] + b;
      RenderedConcat(path, a[1..], b);
    }
  }

  lemma {:induction false} RenderedUnder(path: string, token: string, edits: seq<Edit>)
    ensures Rendered(path, Under(token, edits)) == Rendered(path + "/" + token, edits)
  {
    if edits != [] {
      var p := edits[0].path;
      assert ([token] + p)[1..] == p;
      assert path + ("/" + token + Render(p)) == path + "/" + token + Render(p);
      RenderedUnder(path, token, edits[1..]);
    }
  }

  lemma RenderedOne(path: string, op: Op, token: string, value: Json)
    ensures Rendered(path, [Edit(op, [token], value)]) ==
            [Composed(op, path + "/" + token, if op == Remove then None else Some(value))]
  {
    assert [token][1..] == [];
    assert Render([token]) == "/" + token;
    assert path + ("/" + token) == path + "/" + token;
  }

  lemma RenderedWhole(path: string, goal: Json)
    ensures Rendered(path, Whole(goal)) == [Composed(Replace, path, Some(goal))]
    ensures Rendered(path, []) == []
  {
    assert path + "" == path;
  }

  /** The array of patches under construction. */
  class PatchArray {
    var items: seq<Json>

    constructor ()
      ensures items == []
    {
      items := [];
    }

    /** compose_patch: an object is filled member by member; a suffix names a child of the path. */
    method Compose(op: Op, path: string, suffix: Option<string>, value: Option<Json>)
      modifies this
      ensures items == old(items) + [Composed(op, if suffix.None? then path else path + "/" + suffix.value, value)]
    {
      var patch := [];
      patch := patch + [Member("op", Str(OpName(op)))];
      if suffix.None? {
        patch := patch + [Member("path", Str(path))];
      } else {
        patch := patch + [Member("path", Str(path + "/" + suffix.value))];
      }
      if value.Some? { patch := patch + [Member("value", value.value)]; }
      assert patch == Composed(op, if suffix.None? then path else path + "/" + suffix.value, value).members;
      items := items + [Obj(patch)];
    }

    /** create_patches, not case sensitive, for keys that need no escaping. */
    method CreatePatches(path: string, from: Json, goal: Json)
      requires PlainKeys(from) && PlainKeys(goal)
      modifies this
      ensures items == old(items) + Rendered(path, Diff(from, goal))
      decreases Size(from), 1
    {
      RenderedWhole(path, goal);
      match (from, goal) {
        case (Null, Null) =>
        case (False, False) =>
        case (True, True) =>
        case (Num(m), Num(n)) =>
          if m != n { Compose(Replace, path, None, Some(goal)); }
        case (Str(s), Str(t)) =>
          if CompareStrings(s, t) != 0 { Compose(Replace, path, None, Some(goal)); }
        case (Arr(a), Arr(b)) =>
          CreateItemPatches(path, a, b);
        case (Obj(a), Obj(b)) =>
          SortKeepsMembers(a);
          SortKeepsMembers(b);
          CreateMemberPatches(path, SortMembers(a), SortMembers(b), a);
        case _ => Compose(Replace, path, None, Some(goal));
      }
    }

    /** The three loops of the array case: common positions, then what only one of the arrays has. */
    method CreateItemPatches(path: string, a: seq<Json>, b: seq<Json>)
      requires PlainKeys(Arr(a)) && PlainKeys(Arr(b))
      modifies this
      ensures items == old(items) + Rendered(path, DiffItems(a, b, 0))
      decreases SizeAll(a), 2
    {
      hide Diff, DiffItems, Render, Rendered, PlainKeys, RemoveAt;
      ghost var total := items + Rendered(path, DiffItems(a, b, 0));
      var index := 0;
      while index < |a| && index < |b|
        invariant 0 <= index <= |a| && index <= |b|
        invariant items + Rendered(path, DiffItems(a, b, index)) == total
      {
        SizeOfItem(a, index);
        PlainItem(a, index);
        PlainItem(b, index);
        CommonItemPatches(path, a, b, index);
        ghost var before := items;
        CreatePatches(path + "/" + ToDecimal(index), a[index], b[index]);
        Regroup(before, items[|before|..], Rendered(path, DiffItems(a, b, index + 1)));
        index := index + 1;
      }
      OtherItemPatches(path, a, b, index);
      CreateRemovals(path, index, |a| - index);
      if index == |a| { CreateAdditions(path, a, b, index); }
      RemovalPatches(path, index, 0);
    }

    /** The second loop: removals at one position. */
    method CreateRemovals(path: string, index: nat, count: nat)
      modifies this
      ensures items == old(items) + Rendered(path, RemoveAt(index, count))
    {
      hide Render, Rendered, RemoveAt;
      ghost var total := items + Rendered(path, RemoveAt(index, count));
      var left := count;
      while left > 0
        invariant 0 <= left <= count && items + Rendered(path, RemoveAt(index, left)) == total
      {
        RemovalPatches(path, index, left);
        Regroup(items, [Composed(Remove, path + "/" + ToDecimal(index), None)],
                Rendered(path, RemoveAt(index, left - 1)));
        Compose(Remove, path, Some(ToDecimal(index)), None);
        left := left - 1;
      }
      RemovalPatches(path, index, 0);
    }

    /** The third loop: elements appended. */
    method CreateAdditions(path: string, a: seq<Json>, b: seq<Json>, from: nat)
      requires |a| <= from <= |b|
      modifies this
      ensures items == old(items) + Rendered(path, DiffItems(a, b, from))
    {
      hide Diff, DiffItems, Render, Rendered;
      ghost var total := items + Rendered(path, DiffItems(a, b, from));
      var index := from;
      while index < |b|
        invariant |a| <= index <= |b|
        invariant items + Rendered(path, DiffItems(a, b, index)) == total
      {
        AppendedItemPatches(path, a, b, index);
        Regroup(items, [Composed(Add, path + "/-", Some(b[index]))], Rendered(path, DiffItems(a, b, index + 1)));
        assert path + "/" + "-" == path + "/-";
        Compose(Add, path, Some("-"), Some(b[index]));
        index := index + 1;
      }
      OtherItemPatches(path, a, b, index);
    }

    /** The two-cursor loop of the object case. */
    method CreateMemberPatches(path: string, s: seq<Member>, t: seq<Member>, ghost members: seq<Member>)
      requires (forall m :: m in s ==> m in members && PlainKeys(m.val)) && forall m :: m in t ==> PlainKeys(m.val)
      modifies this
      ensures items == old(items) + Rendered(path, DiffMembers(s, t, 0, 0, members))
      decreases SizeMembers(members), 2
    {
      hide Diff, DiffMembers, Render, Rendered, CompareKeys, PlainKeys;
      ghost var total := items + Rendered(path, DiffMembers(s, t, 0, 0, members));
      var i, j := 0, 0;
      while i < |s| || j < |t|
        invariant 0 <= i <= |s| && 0 <= j <= |t|
        invariant items + Rendered(path, DiffMembers(s, t, i, j, members)) == total
        decreases |s| - i + |t| - j
      {
        MemberPatches(path, s, t, i, j, members);
        var diff := if i == |s| then 1 else if j == |t| then -1 else CompareKeys(s[i].key, t[j].key);
        ghost var before := items;
        if diff == 0 {
          assert s[i] in s && t[j] in t;
          SizeOfMember(members, s[i]);
          CreatePatches(path + "/" + s[i].key, s[i].val, t[j].val);
          i, j := i + 1, j + 1;
        } else if diff < 0 {
          Compose(Remove, path, Some(s[i].key), None);
          i := i + 1;
        } else {
          Compose(Add, path, Some(t[j].key), Some(t[j].val));
          j := j + 1;
        }
        Regroup(before, items[|before|..], Rendered(path, DiffMembers(s, t, i, j, members)));
      }
      MemberPatches(path, s, t, i, j, members);
    }
  }

  lemma Regroup(a: seq<Json>, b: seq<Json>, c: seq<Json>)
    ensures a + (b + c) == (a + b) + c
  {
  }

  lemma PlainItem(items: seq<Json>, i: nat)
    requires PlainKeys(Arr(items)) && i < |items|
    ensures PlainKeys(items[i])
  {
  }

  lemma CommonItemPatches(path: string, a: seq<Json>, b: seq<Json>, i: nat)
    requires i < |a| && i < |b|
    ensures Rendered(path, DiffItems(a, b, i)) ==
            Rendered(path + "/" + ToDecimal(i), Diff(a[i], b[i])) + Rendered(path, DiffItems(a, b, i + 1))
  {
    hide Diff;
    RenderedUnder(path, ToDecimal(i), Diff(a[i], b[i]));
    RenderedConcat(path, Under(ToDecimal(i), Diff(a[i], b[i])), DiffItems(a, b, i + 1));
  }

  lemma OtherItemPatches(path: string, a: seq<Json>, b: seq<Json>, i: nat)
    requires i >= |a| || i >= |b|
    ensures i < |a| ==> DiffItems(a, b, i) == RemoveAt(i, |a| - i)
    ensures i >= |a| && i >= |b| ==> Rendered(path, DiffItems(a, b, i)) == []
  {
  }

  lemma RemovalPatches(path: string, i: nat, count: nat)
    ensures Rendered(path, RemoveAt(i, count)) ==
            if count == 0 then []
            else [Composed(Remove, path + "/" + ToDecimal(i), None)] + Rendered(path, RemoveAt(i, count - 1))
  {
    if count > 0 {
      RenderedOne(path, Remove, ToDecimal(i), Null);
      RenderedConcat(path, [Edit(Remove, [ToDecimal(i)], Null)], RemoveAt(i, count - 1));
    }
  }

  lemma AppendedItemPatches(path: string, a: seq<Json>, b: seq<Json>, i: nat)
    requires |a| <= i < |b|
    ensures Rendered(path, DiffItems(a, b, i)) ==
            [Composed(Add, path + "/-", Some(b[i]))] + Rendered(path, DiffItems(a, b, i + 1))
  {
    RenderedOne(path, Add, "-", b[i]);
    RenderedConcat(path, [Edit(Add, ["-"], b[i])], DiffItems(a, b, i + 1));
    assert path + "/" + "-" == path + "/-";
  }

  /** The patches of one turn of the two-cursor loop come before those of the later turns. */
  lemma MemberPatches(path: string, s: seq<Member>, t: seq<Member>, i: nat, j: nat, members: seq<Member>)
    requires i <= |s| && j <= |t| && forall m :: m in s ==> m in members
    ensures Rendered(path, DiffMembers(s, t, i, j, members)) ==
            if i == |s| && j == |t| then [] else
              var diff := if i == |s| then 1 else if j == |t| then -1 else CompareKeys(s[i].key, t[j].key);
              if diff == 0 then
                Rendered(path + "/" + s[i].key, Diff(s[i].val, t[j].val))
                + Rendered(path, DiffMembers(s, t, i + 1, j + 1, members))
              else if diff < 0 then
                [Composed(Remove, path + "/" + s[i].key, None)] + Rendered(path, DiffMembers(s, t, i + 1, j, members))
              else
                [Composed(Add, path + "/" + t[j].key, Some(t[j].val))]
                + Rendered(path, DiffMembers(s, t, i, j + 1, members))
  {
    hide Diff, CompareKeys;
    if i < |s| || j < |t| {
      var diff := if i == |s| then 1 else if j == |t| then -1 else CompareKeys(s[i].key, t[j].key);
      if diff == 0 {
        RenderedUnder(path, s[i].key, Diff(s[i].val, t[j].val));
        RenderedConcat(path, Under(s[i].key, Diff(s[i].val, t[j].val)), DiffMembers(s, t, i + 1, j + 1, members));
      } else if diff < 0 {
        RenderedOne(path, Remove, s[i].key, Null);
        RenderedConcat(path, [Edit(Remove, [s[i].key], Null)], DiffMembers(s, t, i + 1, j, members));
      } else {
        RenderedOne(path, Add, t[j].key, t[j].val);
        RenderedConcat(path, [Edit(Add, [t[j].key], t[j].val)], DiffMembers(s, t, i, j + 1, members));
      }
    }
  }

  // ---------------------------------------------------------------- the round trip

  lemma {:induction false} NoTilde(path: seq<string>)
    requires PlainPath(path)
    ensures '~' !in Render(path)
  {
    if path != [] { NoTilde(path[1..]); }
  }

  /** A writable edit is read back from the patch it is written as. */
  lemma PatchRoundTrip(e: Edit)
    requires Writable(e)
    ensures Modelled(PatchOf("", e)) && Placed(PatchOf("", e)) && EditOf(PatchOf("", e)) == e
  {
    hide ReadPatch;
    assert "" + Render(e.path) == Render(e.path);
    PathTokensOfRender(e.path);
    NoTilde(e.path);
    ReadComposed(e.op, Render(e.path), if e.op == Remove then None else Some(e.value));
  }

  lemma {:induction false} PatchesRoundTrip(edits: seq<Edit>)
    requires AllWritable(edits)
    ensures forall p :: p in Rendered("", edits) ==> Modelled(p) && Placed(p)
    ensures EditsOf(Rendered("", edits)) == edits
  {
    hide Writable, Modelled, EditOf, PatchOf, Placed;
    if edits != [] {
      PatchRoundTrip(edits[0]);
      PatchesRoundTrip(edits[1..]);
      RenderedFirst("", edits);
    }
  }

  /** For RFC 6902 a written patch is the edit it was written for. */
  lemma WrittenRfc(t: Tree, e: Edit)
    requires Writable(e) && Complete(PatchOf("", e))
    ensures PatchedRfc(t, PatchOf("", e)) == ApplyRfc(t, e.op, e.path, Meaning(e.value))
  {
    hide ReadPatch, ApplyRfc, Pointer;
    assert "" + Render(e.path) == Render(e.path);
    ReadComposed(e.op, Render(e.path), if e.op == Remove then None else Some(e.value));
    PointerOfRender(e.path);
  }

  lemma {:induction false} WrittenAllRfc(t: Tree, edits: seq<Edit>)
    requires AllWritable(edits) && forall p :: p in Rendered("", edits) ==> Complete(p)
    ensures PatchedAllRfc(t, Rendered("", edits)) == ApplyAllRfc(t, edits)
    decreases |edits|
  {
    hide Writable, Complete, PatchOf, PatchedRfc, ApplyRfc, Meaning;
    if edits != [] {
      var e := edits[0];
      RenderedFirst("", edits);
      assert PatchOf("", e) in Rendered("", edits);
      WrittenRfc(t, e);
      var u := ApplyRfc(t, e.op, e.path, Meaning(e.value));
      if u.Some? { WrittenAllRfc(u.value, edits[1..]); }
    }
  }

  /** The generated patches are JSON Patch documents that, applied in order to the first value as RFC 6902
      says, give the second one; and the code's own reading of them does the same. */
  lemma DiffThenPatch(from: Json, goal: Json)
    requires WellFormed(from) && WellFormed(goal) && PlainKeys(from) && PlainKeys(goal)
    requires Addressable(from) && Addressable(goal)
    ensures var patches := Rendered("", Diff(from, goal));
            && (forall p :: p in patches ==> Modelled(p) && Complete(p))
            && PatchedAllRfc(Meaning(from), patches) == Some(Meaning(goal))
            && Outcomes(Some(Meaning(from)), patches) == (0, Some(Meaning(goal)))
  {
    hide Diff, Modelled, Complete, Outcomes, ApplyAllRfc, PatchedAllRfc;
    DiffIsWritable(from, goal);
    PatchesRoundTrip(Diff(from, goal));
    DiffWorks(from, goal);
    WrittenAllRfc(Meaning(from), Diff(from, goal));
    PatchesConform(Meaning(from), Rendered("", Diff(from, goal)));
  }

  /** Generating patches and applying them to a copy of the first value. */
  method PatchCopy(from: Json, goal: Json) returns (patches: Json, status: int, copy: Document)
    requires WellFormed(from) && WellFormed(goal) && PlainKeys(from) && PlainKeys(goal)
    requires Addressable(from) && Addressable(goal)
    ensures patches.Arr? && forall p :: p in patches.items ==> Complete(p)
    ensures PatchedAllRfc(Meaning(from), patches.items) == Some(Meaning(goal))
    ensures status == 0 && copy.root.Some? && Meaning(copy.root.value) == Meaning(goal)
  {
    hide Meaning, Diff, Outcomes, PatchedAllRfc, Modelled, Complete;
    copy := new Document(from);
    var generated := new PatchArray();
    generated.CreatePatches("", from, goal);
    assert generated.items == Rendered("", Diff(from, goal));
    patches := Arr(generated.items);
    DiffThenPatch(from, goal);
    status := copy.ApplyPatches(patches);
  }
}
