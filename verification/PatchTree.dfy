/** JSON Patch on trees as cJSON_Utils carries it out, and exactly when that is RFC 6902. */
module PatchTree {
  import opened Basics
  import opened Decimal
  import opened Json
  import opened PatchRfc

  // ---------------------------------------------------------------- reference tokens

  /** Storing a number in a size_t. */
  function Wrap(n: nat): (r: nat)
    ensures n < SIZE_LIMIT ==> r == n
  {
    n % SIZE_LIMIT
  }

  /** The digits loop of decode_array_index_from_pointer: it stops at the first byte below '0', and the
      size_t it accumulates wraps around. */
  function IndexFrom(token: string, i: nat, n: nat): Option<nat>
    requires i <= |token|
    decreases |token| - i
  {
    if i == |token| then Some(n)
    else if token[i] >= '0' then IndexFrom(token, i + 1, Wrap(10 * n + (token[i] as int - '0' as int)))
    else None
  }

  /** The array index a token denotes. No leading zeros; only the first byte is tested against '9'. */
  function DecodeIndex(token: string): Option<nat> {
    if |token| > 1 && token[0] == '0' then None
    else if token != [] && token[0] > '9' then None
    else IndexFrom(token, 0, 0)
  }

  lemma {:induction false} PrefixIsSmaller(token: string, i: nat)
    requires i <= |token| && AllDigits(token)
    ensures AllDigits(token[..i]) && FromDecimal(token[..i]) <= FromDecimal(token)
    decreases |token|
  {
    if i == |token| {
      assert token[..i] == token;
    } else {
      PrefixIsSmaller(token[..|token| - 1], i);
      assert token[..|token| - 1][..i] == token[..i];
    }
  }

  lemma {:induction false} IndexFromDigits(token: string, i: nat)
    requires i <= |token| && AllDigits(token) && FromDecimal(token) < SIZE_LIMIT
    ensures AllDigits(token[..i])
    ensures IndexFrom(token, i, FromDecimal(token[..i])) == Some(FromDecimal(token))
    decreases |token| - i
  {
    hide Wrap;
    if i < |token| {
      PrefixIsSmaller(token, i + 1);
      assert token[..i + 1][..i] == token[..i];
      IndexFromDigits(token, i + 1);
    } else {
      assert token[..i] == token;
    }
  }

  lemma {:induction false} IndexFromSucceeds(token: string, i: nat, n: nat)
    requires i <= |token|
    ensures IndexFrom(token, i, n).Some? <==> forall j :: i <= j < |token| ==> token[j] >= '0'
    decreases |token| - i
  {
    hide Wrap;
    if i < |token| && token[i] >= '0' {
      IndexFromSucceeds(token, i + 1, Wrap(10 * n + (token[i] as int - '0' as int)));
    }
  }

  /** Tokens that are no array index, but are taken for one: the empty token, tokens with bytes above '9'
      behind the first digit, and digits whose value does not fit into a size_t. */
  predicate Loose(token: string) {
    || token == []
    || ('1' <= token[0] <= '9'
        && (forall i :: 0 <= i < |token| ==> token[i] >= '0')
        && !(AllDigits(token) && FromDecimal(token) < SIZE_LIMIT))
  }

  /** Reading a token is reading the array index it is; the loose tokens are read as one that is not there. */
  lemma DecodeIndexIs(token: string)
    ensures if Loose(token) then DecodeIndex(token).Some? && IndexRfc(token).None?
            else DecodeIndex(token) == IndexRfc(token)
  {
    hide IndexFrom;
    IndexFromSucceeds(token, 0, 0);
    if token != [] && !IsDigit(token[0]) {
      assert DecodeIndex(token).None? && !AllDigits(token);
    } else if token != [] && token[0] == '0' {
      if |token| == 1 { IndexFromDigits(token, 0); }
    } else if token != [] && AllDigits(token) && FromDecimal(token) < SIZE_LIMIT {
      IndexFromDigits(token, 0);
    }
    assert token != [] ==> token[..0] == [];
  }

  // ---------------------------------------------------------------- children

  function Child(t: Tree, token: string): Option<Tree> {
    match t
    case TArr(items) =>
      var i := DecodeIndex(token);
      if i.Some? && i.value < |items| then Some(items[i.value]) else None
    case TObj(fields) => if Fold(token) in fields then Some(fields[Fold(token)]) else None
    case _ => None
  }

  function WithChild(t: Tree, token: string, c: Tree): (r: Tree)
    requires Child(t, token).Some?
    ensures Child(r, token) == Some(c)
  {
    match t
    case TArr(items) => TArr(items[DecodeIndex(token).value := c])
    case TObj(fields) => TObj(fields[Fold(token) := c])
  }

  lemma WithChildAgain(t: Tree, token: string, c: Tree, d: Tree)
    requires Child(t, token).Some?
    ensures WithChild(WithChild(t, token, c), token, d) == WithChild(t, token, d)
    ensures WithChild(t, token, Child(t, token).value) == t
  {
    if t.TObj? {
      assert t.fields[Fold(token) := c][Fold(token) := d] == t.fields[Fold(token) := d];
      assert t.fields[Fold(token) := t.fields[Fold(token)]] == t.fields;
    }
  }

  /** The node the tokens lead to. */
  function Follow(t: Tree, tokens: seq<string>): Option<Tree> {
    if tokens == [] then Some(t) else
      var c := Child(t, tokens[0]);
      if c.None? then None else Follow(c.value, tokens[1..])
  }

  // ---------------------------------------------------------------- operations

  /** Adding to or removing from one node. Adding below a scalar changes nothing and is no error. */
  function EditChild(t: Tree, op: Op, token: string, v: Tree): Option<Tree> {
    match t
    case TArr(items) =>
      var i := DecodeIndex(token);
      if op == Remove then
        if i.Some? && i.value < |items| then Some(TArr(items[..i.value] + items[i.value + 1..])) else None
      else if token == "-" then Some(TArr(items + [v]))
      else if i.Some? && i.value <= |items| then Some(TArr(items[..i.value] + [v] + items[i.value..]))
      else None
    case TObj(fields) =>
      if op != Remove then Some(TObj(fields[Fold(token) := v]))
      else if Fold(token) in fields then Some(TObj(fields - {Fold(token)}))
      else None
    case _ => if op == Remove then None else Some(t)
  }

  /** One operation: `replace` puts a value where one is, `add` and `remove` edit the parent. None is
      an error, or a document removed as a whole. */
  function Apply(t: Tree, op: Op, path: seq<string>, v: Tree): Option<Tree> {
    if path == [] then (if op == Remove then None else Some(v))
    else if |path| == 1 && op != Replace then EditChild(t, op, path[0], v)
    else
      var c := Child(t, path[0]);
      if c.None? then None else
        var c' := Apply(c.value, op, path[1..], v);
        if c'.None? then None else Some(WithChild(t, path[0], c'.value))
  }

  function ApplyAll(t: Tree, edits: seq<Edit>): Option<Tree>
    decreases |edits|
  {
    if edits == [] then Some(t) else
      var t' := Apply(t, edits[0].op, edits[0].path, Meaning(edits[0].value));
      if t'.None? then None else ApplyAll(t'.value, edits[1..])
  }

  /** Removing a value and adding another under the same token is replacing it, and works whenever
      the removal does. */
  lemma {:induction false} ReplaceIsRemoveThenAdd(t: Tree, path: seq<string>, v: Tree)
    requires path != []
    ensures Apply(t, Replace, path, v).Some? <==> Apply(t, Remove, path, v).Some?
    ensures Apply(t, Replace, path, v) ==
            match Apply(t, Remove, path, v)
            case None => None
            case Some(u) => Apply(u, Add, path, v)
  {
    var token := path[0];
    if |path| == 1 {
      assert path[1..] == [];
      ReplaceOneChild(t, token, v);
    } else {
      var c := Child(t, token);
      if c.Some? {
        ReplaceIsRemoveThenAdd(c.value, path[1..], v);
        var c1 := Apply(c.value, Remove, path[1..], v);
        if c1.Some? {
          var c2 := Apply(c1.value, Add, path[1..], v);
          if c2.Some? { WithChildAgain(t, token, c1.value, c2.value); }
        }
      }
    }
  }

  lemma ReplaceOneChild(t: Tree, token: string, v: Tree)
    ensures (if Child(t, token).None? then None else Some(WithChild(t, token, v))) ==
            match EditChild(t, Remove, token, v)
            case None => None
            case Some(u) => EditChild(u, Add, token, v)
  {
    match t
    case TArr(items) =>
      var i := DecodeIndex(token);
      DashIsNoIndex();
      if i.Some? && i.value < |items| {
        var rest := items[..i.value] + items[i.value + 1..];
        assert rest[..i.value] + [v] + rest[i.value..] == items[i.value := v];
      }
    case TObj(fields) =>
      if Fold(token) in fields {
        assert (fields - {Fold(token)})[Fold(token) := v] == fields[Fold(token) := v];
      }
    case _ =>
  }

  lemma DashIsNoIndex()
    ensures DecodeIndex("-") == None
  {
  }

  // ---------------------------------------------------------------- conformance

  predicate IsScalar(t: Tree) {
    !t.TArr? && !t.TObj?
  }

  /** Whether the node takes the operation under the token: it is a scalar or an object to add to, or the
      position is there. */
  predicate Takes(t: Tree, op: Op, token: string) {
    match t
    case TArr(items) =>
      || (op == Add && token == "-")
      || (DecodeIndex(token).Some? && DecodeIndex(token).value < |items| + if op == Add then 1 else 0)
    case TObj(fields) => op == Add || Fold(token) in fields
    case _ => op == Add
  }

  /** An array is entered under a loose token. */
  predicate LooseOnTheWay(t: Tree, path: seq<string>) {
    path != []
    && ((t.TArr? && Loose(path[0]))
        || (Child(t, path[0]).Some? && LooseOnTheWay(Child(t, path[0]).value, path[1..])))
  }

  /** What can be seen before the call of an operation that RFC 6902 calls an error and the code carries
      out: its parent is there and takes it, but is a scalar, or was found under a loose token. */
  predicate Departs(t: Tree, op: Op, path: seq<string>) {
    path != [] &&
    var n := |path| - 1;
    match Follow(t, path[..n])
    case None => false
    case Some(parent) => Takes(parent, op, path[n]) && (IsScalar(parent) || LooseOnTheWay(t, path))
  }

  lemma DepartsBelow(t: Tree, op: Op, path: seq<string>)
    requires |path| > 1
    ensures Departs(t, op, path) <==>
            Child(t, path[0]).Some?
            && var c := Child(t, path[0]).value;
               var n := |path| - 1;
               match Follow(c, path[1..][..n - 1])
               case None => false
               case Some(parent) =>
                 Takes(parent, op, path[n])
                 && ((t.TArr? && Loose(path[0])) || IsScalar(parent) || LooseOnTheWay(c, path[1..]))
  {
    hide Takes, Loose, Child;
    var n := |path| - 1;
    assert path[..n][1..] == path[1..][..n - 1] && path[..n][0] == path[0];
  }

  /** The code can do an operation exactly when its parent is there and takes it. */
  lemma {:induction false} PossibleExactly(t: Tree, op: Op, path: seq<string>, v: Tree)
    requires path != []
    ensures Apply(t, op, path, v).Some? <==>
            var parent := Follow(t, path[..|path| - 1]);
            parent.Some? && Takes(parent.value, op, path[|path| - 1])
  {
    var n := |path| - 1;
    if n == 0 {
      assert path[1..] == [] && path[..0] == [];
    } else {
      hide EditChild, Takes;
      assert path[..n][1..] == path[1..][..n - 1] && path[..n][0] == path[0];
      if Child(t, path[0]).Some? { PossibleExactly(Child(t, path[0]).value, op, path[1..], v); }
    }
  }

  lemma ChildConforms(t: Tree, token: string)
    ensures t.TArr? && Loose(token) ==> ChildRfc(t, token).None?
    ensures !(t.TArr? && Loose(token)) ==> ChildRfc(t, token) == Child(t, token)
    ensures !(t.TArr? && Loose(token)) && Child(t, token).Some? ==>
              forall c :: WithChildRfc(t, token, c) == WithChild(t, token, c)
  {
    hide Loose, DecodeIndex, IndexRfc;
    DecodeIndexIs(token);
  }

  lemma LastStepConforms(t: Tree, op: Op, token: string, v: Tree)
    ensures Apply(t, op, [token], v) == ApplyRfc(t, op, [token], v) <==> !Departs(t, op, [token])
    ensures ApplyRfc(t, op, [token], v).None? || !Departs(t, op, [token])
  {
    hide Loose, DecodeIndex, IndexRfc;
    DecodeIndexIs(token);
    DashIsNoIndex();
    assert [token][1..] == [] && [token][..0] == [];
    assert LooseOnTheWay(t, [token]) <==> t.TArr? && Loose(token);
    if op == Replace {
      ChildConforms(t, token);
      hide Child, ChildRfc;
      if Child(t, token).Some? && ChildRfc(t, token).Some? {
        assert WithChildRfc(t, token, v) == WithChild(t, token, v);
      }
    }
  }

  /** One step down the path, for both. */
  lemma ApplyStep(t: Tree, op: Op, path: seq<string>, v: Tree)
    requires |path| > 1
    ensures Apply(t, op, path, v) ==
            if Child(t, path[0]).None? then None else
              var c := Apply(Child(t, path[0]).value, op, path[1..], v);
              if c.None? then None else Some(WithChild(t, path[0], c.value))
    ensures ApplyRfc(t, op, path, v) ==
            if ChildRfc(t, path[0]).None? then None else
              var c := ApplyRfc(ChildRfc(t, path[0]).value, op, path[1..], v);
              if c.None? then None else Some(WithChildRfc(t, path[0], c.value))
  {
    hide Child, WithChild, ChildRfc, WithChildRfc, EditChild;
  }

  /** An operation does what RFC 6902 says, errors included, exactly unless it is one of those. */
  lemma {:induction false} Conforms(t: Tree, op: Op, path: seq<string>, v: Tree)
    ensures Apply(t, op, path, v) == ApplyRfc(t, op, path, v) <==> !Departs(t, op, path)
    ensures ApplyRfc(t, op, path, v).None? || !Departs(t, op, path)
    decreases |path|
  {
    if |path| == 1 {
      hide *;
      assert path == [path[0]];
      LastStepConforms(t, op, path[0], v);
    } else if |path| > 1 {
      hide Apply, ApplyRfc, Takes, Loose, Child, ChildRfc, WithChild, WithChildRfc, LooseOnTheWay;
      ApplyStep(t, op, path, v);
      DepartsBelow(t, op, path);
      ChildConforms(t, path[0]);
      var c := Child(t, path[0]);
      if c.Some? {
        var below := path[1..];
        Conforms(c.value, op, below, v);
        PossibleExactly(c.value, op, below, v);
        assert below[..|below| - 1] == path[1..][..|path| - 2];
      }
    }
  }

  // ---------------------------------------------------------------- where it departs

  /** Adding a member to a number is an error in section 4.1, and is reported as done. */
  lemma AddBelowScalar(v: Tree)
    ensures ApplyRfc(TNum(1), Add, ["a"], v) == None
    ensures Apply(TNum(1), Add, ["a"], v) == Some(TNum(1))
  {
  }

  /** The path "/" has the empty token, which is no index, and removes the first element. */
  lemma RemoveEmptyToken(v: Tree)
    ensures ApplyRfc(TArr([TStr("x")]), Remove, [""], v) == None
    ensures Apply(TArr([TStr("x")]), Remove, [""], v) == Some(TArr([]))
  {
    assert [TStr("x")][..0] + [TStr("x")][1..] == [];
  }

  /** The token "1:" is read as 20, since ':' follows '9'. */
  lemma RemoveColonToken(items: seq<Tree>, v: Tree)
    requires |items| == 21
    ensures ApplyRfc(TArr(items), Remove, ["1:"], v) == None
    ensures Apply(TArr(items), Remove, ["1:"], v) == Some(TArr(items[..20]))
  {
    assert !IsDigit("1:"[1]);
    assert IndexFrom("1:", 2, 20) == Some(20);
    assert IndexFrom("1:", 1, 1) == Some(20);
    assert items[..20] + items[21..] == items[..20];
  }
}
