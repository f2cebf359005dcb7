/** JSON Patch as RFC 6902 states it, on trees, with paths as lists of reference tokens. */
module PatchRfc {
  import opened Basics
  import opened Decimal
  import opened Json

  datatype Op = Add | Remove | Replace

  /** An edit relative to some node. */
  datatype Edit = Edit(op: Op, path: seq<string>, value: Json)

  /** Array positions are below this bound: an array of more elements does not fit into memory. */
  const SIZE_LIMIT: nat := 0x1_0000_0000_0000_0000

  // ---------------------------------------------------------------- pointers

  /** The text before the first slash. */
  function UpToSlash(s: string): (token: string)
    ensures token <= s && '/' !in token && (|token| < |s| ==> s[|token|] == '/')
  {
    if s == [] || s[0] == '/' then [] else [s[0]] + UpToSlash(s[1..])
  }

  /** Section 3 of RFC 6901, for strings without escapes: a pointer is empty, or starts with a slash, and
      every slash starts a reference token. Any other string is an error. */
  function Pointer(s: string): Option<seq<string>>
    decreases |s|
  {
    if s == [] then Some([])
    else if s[0] != '/' then None
    else
      var token := UpToSlash(s[1..]);
      var rest := Pointer(s[1 + |token|..]);
      if rest.None? then None else Some([token] + rest.value)
  }

  function Render(path: seq<string>): string {
    if path == [] then "" else "/" + path[0] + Render(path[1..])
  }

  ghost predicate Slashless(path: seq<string>) {
    forall i :: 0 <= i < |path| ==> '/' !in path[i]
  }

  lemma {:induction false} UpToSlashIs(token: string, rest: string)
    requires '/' !in token && (rest == [] || rest[0] == '/')
    ensures UpToSlash(token + rest) == token
  {
    if token == [] {
      assert token + rest == rest;
    } else {
      assert (token + rest)[1..] == token[1..] + rest;
      UpToSlashIs(token[1..], rest);
    }
  }

  lemma PointerCons(token: string, rest: string)
    requires '/' !in token && (rest == [] || rest[0] == '/')
    ensures Pointer("/" + token + rest) ==
            if Pointer(rest).None? then None else Some([token] + Pointer(rest).value)
  {
    var s := "/" + token + rest;
    assert s[1..] == token + rest && s[1 + |token|..] == rest;
    UpToSlashIs(token, rest);
  }

  lemma {:induction false} PointerOfRender(path: seq<string>)
    requires Slashless(path)
    ensures Pointer(Render(path)) == Some(path)
  {
    if path != [] {
      PointerOfRender(path[1..]);
      PointerCons(path[0], Render(path[1..]));
      assert [path[0]] + path[1..] == path;
    }
  }

  lemma {:induction false} PointerRenders(s: string)
    requires Pointer(s).Some?
    ensures Render(Pointer(s).value) == s && Slashless(Pointer(s).value)
    decreases |s|
  {
    if s != [] {
      var token := UpToSlash(s[1..]);
      var rest := s[1 + |token|..];
      assert s == "/" + token + rest;
      PointerRenders(rest);
    }
  }

  /** The tokens of a pointer are the only slash-free texts that render it; other strings have none. */
  lemma PointerExactly(s: string, path: seq<string>)
    ensures Pointer(s) == Some(path) <==> s == Render(path) && Slashless(path)
  {
    hide Pointer, Render;
    if Slashless(path) { PointerOfRender(path); }
    if Pointer(s).Some? { PointerRenders(s); }
  }

  // ---------------------------------------------------------------- one operation

  /** Section 4 of RFC 6901: digits only, and no leading zero. */
  predicate IsIndexRfc(token: string) {
    token != [] && AllDigits(token) && (token[0] == '0' ==> |token| == 1)
  }

  /** The position a token names, unless it is past the end of every array there is. */
  function IndexRfc(token: string): Option<nat> {
    if IsIndexRfc(token) && FromDecimal(token) < SIZE_LIMIT then Some(FromDecimal(token)) else None
  }

  lemma IndexRfcOfDecimal(n: nat)
    requires n < SIZE_LIMIT
    ensures IndexRfc(ToDecimal(n)) == Some(n)
  {
    NoLeadingZero(n);
    DecimalRoundTrip(n);
    if ToDecimal(n)[0] == '0' { assert |ToDecimal(0)| == 1; }
  }

  /** The token of a position is its decimal text and no other. */
  lemma IndexRfcExactly(token: string, n: nat)
    ensures IndexRfc(token) == Some(n) <==> token == ToDecimal(n) && n < SIZE_LIMIT
  {
    hide ToDecimal, FromDecimal;
    if n < SIZE_LIMIT { IndexRfcOfDecimal(n); }
    if IsIndexRfc(token) { OneDecimal(token); }
  }

  lemma OneMoreDigit(m: nat, c: char)
    requires m > 0 && IsDigit(c)
    ensures ToDecimal(10 * m + DigitValue(c)) == ToDecimal(m) + [c]
  {
    hide ToDecimal;
    var n := 10 * m + DigitValue(c);
    assert n / 10 == m && n % 10 == DigitValue(c);
    assert DigitChar(DigitValue(c)) == c;
    LastDigit(n);
  }

  lemma LastDigit(n: nat)
    ensures ToDecimal(n) == if n < 10 then [DigitChar(n)] else ToDecimal(n / 10) + [DigitChar(n % 10)]
  {
  }

  lemma ValueStep(token: string, n: nat)
    requires AllDigits(token) && n + 1 == |token|
    ensures AllDigits(token[..n]) && FromDecimal(token) == 10 * FromDecimal(token[..n]) + DigitValue(token[n])
    ensures token == token[..n] + [token[n]]
  {
  }

  lemma {:induction false} OneDecimal(token: string)
    requires IsIndexRfc(token)
    ensures ToDecimal(FromDecimal(token)) == token
    ensures token[0] != '0' ==> FromDecimal(token) > 0
    decreases |token|
  {
    hide ToDecimal, FromDecimal;
    var n := |token| - 1;
    ValueStep(token, n);
    if n == 0 {
      assert token[..0] == [];
      assert FromDecimal([]) == 0 by { NoDigits(); }
      LastDigit(DigitValue(token[0]));
      assert DigitChar(DigitValue(token[0])) == token[0];
    } else {
      assert token[..n][0] == token[0];
      OneDecimal(token[..n]);
      OneMoreDigit(FromDecimal(token[..n]), token[n]);
    }
  }

  lemma NoDigits()
    ensures FromDecimal([]) == 0
  {
  }

  /** Section 4 of RFC 6901: the value a token references, if there is one. */
  function ChildRfc(t: Tree, token: string): Option<Tree> {
    match t
    case TArr(items) =>
      var i := IndexRfc(token);
      if i.Some? && i.value < |items| then Some(items[i.value]) else None
    case TObj(fields) => if Fold(token) in fields then Some(fields[Fold(token)]) else None
    case _ => None
  }

  function WithChildRfc(t: Tree, token: string, c: Tree): (r: Tree)
    requires ChildRfc(t, token).Some?
    ensures ChildRfc(r, token) == Some(c)
  {
    match t
    case TArr(items) => TArr(items[IndexRfc(token).value := c])
    case TObj(fields) => TObj(fields[Fold(token) := c])
  }

  lemma WithChildRfcAgain(t: Tree, token: string, c: Tree, d: Tree)
    requires ChildRfc(t, token).Some?
    ensures WithChildRfc(WithChildRfc(t, token, c), token, d) == WithChildRfc(t, token, d)
    ensures WithChildRfc(t, token, ChildRfc(t, token).value) == t
  {
    if t.TObj? {
      assert t.fields[Fold(token) := c][Fold(token) := d] == t.fields[Fold(token) := d];
      assert t.fields[Fold(token) := t.fields[Fold(token)]] == t.fields;
    }
  }

  /** Section 4.1 of RFC 6902, below an existing node: the value is inserted into an array or appended
      to it, or becomes the member of an object. Nothing can be added below any other value. */
  function AddedRfc(t: Tree, token: string, v: Tree): Option<Tree> {
    match t
    case TArr(items) =>
      var i := IndexRfc(token);
      if token == "-" then Some(TArr(items + [v]))
      else if i.Some? && i.value <= |items| then Some(TArr(items[..i.value] + [v] + items[i.value..]))
      else None
    case TObj(fields) => Some(TObj(fields[Fold(token) := v]))
    case _ => None
  }

  /** Section 4.2: the value must be there; the elements behind it move up. */
  function RemovedRfc(t: Tree, token: string): Option<Tree> {
    if ChildRfc(t, token).None? then None else
      match t
      case TArr(items) => Some(TArr(items[..IndexRfc(token).value] + items[IndexRfc(token).value + 1..]))
      case TObj(fields) => Some(TObj(fields - {Fold(token)}))
  }

  /** Sections 4.1 to 4.3: an operation at the end of a path. None is an error; so is the removal of the
      whole document, which leaves no document. */
  function ApplyRfc(t: Tree, op: Op, path: seq<string>, v: Tree): Option<Tree> {
    if path == [] then (if op == Remove then None else Some(v))
    else if |path| == 1 && op == Add then AddedRfc(t, path[0], v)
    else if |path| == 1 && op == Remove then RemovedRfc(t, path[0])
    else
      var c := ChildRfc(t, path[0]);
      if c.None? then None else
        var c' := ApplyRfc(c.value, op, path[1..], v);
        if c'.None? then None else Some(WithChildRfc(t, path[0], c'.value))
  }

  /** Section 5: in order, and all or nothing. */
  function ApplyAllRfc(t: Tree, edits: seq<Edit>): Option<Tree>
    decreases |edits|
  {
    if edits == [] then Some(t) else
      var t' := ApplyRfc(t, edits[0].op, edits[0].path, Meaning(edits[0].value));
      if t'.None? then None else ApplyAllRfc(t'.value, edits[1..])
  }

  lemma {:induction false} ApplyAllRfcConcat(t: Tree, a: seq<Edit>, b: seq<Edit>)
    ensures ApplyAllRfc(t, a + b) ==
            match ApplyAllRfc(t, a)
            case None => None
            case Some(u) => ApplyAllRfc(u, b)
    decreases |a|
  {
    if a == [] {
      assert a + b == b;
    } else {
      assert (a + b)[0] == a[0] && (a + b)[1..] == a[1..] + b;
      var t' := ApplyRfc(t, a[0].op, a[0].path, Meaning(a[0].value));
      if t'.Some? { ApplyAllRfcConcat(t'.value, a[1..], b); }
    }
  }

  /** Sections 4.1 to 4.3 for the elements of an array, by their positions. */
  lemma ArrayEdits(items: seq<Tree>, n: nat, v: Tree)
    requires n < SIZE_LIMIT
    ensures var t, token := TArr(items), ToDecimal(n);
            && ApplyRfc(t, Add, [token], v) ==
               (if n <= |items| then Some(TArr(items[..n] + [v] + items[n..])) else None)
            && ApplyRfc(t, Remove, [token], v) ==
               (if n < |items| then Some(TArr(items[..n] + items[n + 1..])) else None)
            && ApplyRfc(t, Replace, [token], v) == (if n < |items| then Some(TArr(items[n := v])) else None)
            && ApplyRfc(t, Add, ["-"], v) == Some(TArr(items + [v]))
            && ApplyRfc(t, Remove, ["-"], v) == None && ApplyRfc(t, Replace, ["-"], v) == None
  {
    hide ToDecimal, IndexRfc;
    IndexRfcOfDecimal(n);
    DashIsNoPosition(n);
  }

  lemma DashIsNoPosition(n: nat)
    ensures ToDecimal(n) != "-" && IndexRfc("-") == None
  {
    assert IsDigit(ToDecimal(n)[0]);
  }

  /** The same for the members of an object, by their keys. */
  lemma ObjectEdits(fields: map<string, Tree>, key: string, v: Tree)
    ensures var t, k := TObj(fields), Fold(key);
            && ApplyRfc(t, Add, [key], v) == Some(TObj(fields[k := v]))
            && ApplyRfc(t, Remove, [key], v) == (if k in fields then Some(TObj(fields - {k})) else None)
            && ApplyRfc(t, Replace, [key], v) == (if k in fields then Some(TObj(fields[k := v])) else None)
  {
    hide Fold;
  }

  /** Nothing can be edited below any other value, and the whole document can be added or replaced. */
  lemma OtherEdits(t: Tree, op: Op, token: string, v: Tree)
    ensures !t.TArr? && !t.TObj? ==> ApplyRfc(t, op, [token], v) == None
    ensures ApplyRfc(t, Add, [], v) == Some(v) && ApplyRfc(t, Replace, [], v) == Some(v)
  {
  }

  /** A longer path leads through the children: an element by its position, a member by its key. */
  lemma NestedEdits(items: seq<Tree>, n: nat, fields: map<string, Tree>, key: string,
                    op: Op, path: seq<string>, v: Tree)
    requires path != [] && n < |items| && n < SIZE_LIMIT && Fold(key) in fields
    ensures ApplyRfc(TArr(items), op, [ToDecimal(n)] + path, v) ==
            match ApplyRfc(items[n], op, path, v)
            case None => None
            case Some(c) => Some(TArr(items[n := c]))
    ensures ApplyRfc(TObj(fields), op, [key] + path, v) ==
            match ApplyRfc(fields[Fold(key)], op, path, v)
            case None => None
            case Some(c) => Some(TObj(fields[Fold(key) := c]))
  {
    hide ToDecimal, IndexRfc, Fold, ApplyRfc;
    IndexRfcOfDecimal(n);
    OneUnder(TArr(items), ToDecimal(n), op, path, v);
    OneUnder(TObj(fields), key, op, path, v);
  }

  // ---------------------------------------------------------------- edits below a child

  function Under(token: string, edits: seq<Edit>): (r: seq<Edit>)
    ensures |r| == |edits|
  {
    if edits == [] then [] else [edits[0].(path := [token] + edits[0].path)] + Under(token, edits[1..])
  }

  /** Only a replacement may name the node itself. */
  ghost predicate BelowNode(edits: seq<Edit>) {
    forall i :: 0 <= i < |edits| ==> edits[i].op == Replace || edits[i].path != []
  }

  lemma OneUnder(t: Tree, token: string, op: Op, path: seq<string>, v: Tree)
    requires ChildRfc(t, token).Some? && (op == Replace || path != [])
    ensures ApplyRfc(t, op, [token] + path, v) ==
            match ApplyRfc(ChildRfc(t, token).value, op, path, v)
            case None => None
            case Some(c) => Some(WithChildRfc(t, token, c))
  {
    hide ChildRfc, WithChildRfc, AddedRfc, RemovedRfc;
    assert ([token] + path)[1..] == path && ([token] + path)[0] == token;
  }

  /** Edits moved below a token act on that child, and on nothing else. */
  lemma {:induction false} ApplyUnder(t: Tree, token: string, edits: seq<Edit>)
    requires ChildRfc(t, token).Some? && BelowNode(edits)
    ensures ApplyAllRfc(t, Under(token, edits)) ==
            match ApplyAllRfc(ChildRfc(t, token).value, edits)
            case None => None
            case Some(c) => Some(WithChildRfc(t, token, c))
    ensures BelowNode(Under(token, edits))
    decreases |edits|
  {
    hide ApplyRfc, ChildRfc, WithChildRfc, Meaning;
    if edits == [] {
      WithChildRfcAgain(t, token, t, t);
    } else {
      var e := edits[0];
      OneUnder(t, token, e.op, e.path, Meaning(e.value));
      var c := ApplyRfc(ChildRfc(t, token).value, e.op, e.path, Meaning(e.value));
      if c.Some? {
        ApplyUnder(WithChildRfc(t, token, c.value), token, edits[1..]);
        var d := ApplyAllRfc(c.value, edits[1..]);
        if d.Some? { WithChildRfcAgain(t, token, c.value, d.value); }
      } else {
        ApplyUnder(t, token, edits[1..]);
      }
    }
  }
}
