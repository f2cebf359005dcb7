/** The result set of the Oracle driver: trimmed values in one flat block, row after row, and the two
    ways to read it back, by index and by cursor. */
module Oracle {
  import opened Basics

  // ---------------------------------------------------------------- trimming

  /** The bytes rtrim takes off. There are two functions of that name: the driver's own, and the one of the
      service, which its -rdynamic link puts before that of a driver it loads. NUL is among them always. */
  type Blanks = b: set<char> | '\0' in b witness {'\0'}

  const DRIVER_BLANKS: Blanks := {' ', '\0'}
  const SERVICE_BLANKS: Blanks := {' ', '\0', '\n', '\r'}

  /** How much of a text rtrim keeps. */
  function Kept(s: string, blanks: Blanks): (n: nat)
    ensures n <= |s| && (n > 0 ==> s[n - 1] !in blanks) && forall i :: n <= i < |s| ==> s[i] in blanks
  {
    if s == [] || s[|s| - 1] !in blanks then |s| else Kept(s[..|s| - 1], blanks)
  }

  /** Which of the two is called matters exactly for texts that end, blanks aside, in a line end. */
  lemma BlanksDiffer(s: string)
    ensures var n := Kept(s, DRIVER_BLANKS);
            Kept(s, SERVICE_BLANKS) == n <==> n == 0 || s[n - 1] !in {'\n', '\r'}
  {
    var n, m := Kept(s, DRIVER_BLANKS), Kept(s, SERVICE_BLANKS);
    assert m <= n;
  }

  /** A value read with a line end at its end keeps it in one program and loses it in the other. */
  lemma LineEndIsKept()
    ensures Trimmed("a\n ", false, DRIVER_BLANKS) == "a\n" && Trimmed("a\n ", false, SERVICE_BLANKS) == "a"
  {
    assert Kept("a\n ", DRIVER_BLANKS) == 2;
    assert Kept("a\n ", SERVICE_BLANKS) == 1;
    assert "a\n "[..2] == "a\n" && "a\n "[..1] == "a";
    assert CString("\n") == "\n";
  }

  function LeadingSpaces(s: string): (n: nat)
    ensures n <= |s| && (forall i :: 0 <= i < n ==> s[i] == ' ') && (n < |s| ==> s[n] != ' ')
  {
    if s == [] || s[0] != ' ' then 0 else 1 + LeadingSpaces(s[1..])
  }

  /** The value stored for a fetched one: trimmed on the right, and on the left when it was converted. */
  function Trimmed(raw: string, converted: bool, blanks: Blanks): (t: string)
    ensures |t| <= |raw| && '\0' !in t
  {
    var t := CString(raw[..Kept(raw, blanks)]);
    if converted then t[LeadingSpaces(t)..] else t
  }

  lemma {:induction false} KeptIs(s: string, n: nat, blanks: Blanks)
    requires n <= |s| && (n > 0 ==> s[n - 1] !in blanks) && forall i :: n <= i < |s| ==> s[i] in blanks
    ensures Kept(s, blanks) == n
  {
  }

  lemma {:induction false} LeadingSpacesAre(s: string, n: nat)
    requires n <= |s| && (forall i :: 0 <= i < n ==> s[i] == ' ') && (n < |s| ==> s[n] != ' ')
    ensures LeadingSpaces(s) == n
  {
    assert n < |s| ==> LeadingSpaces(s) >= n;
  }

  /** A text between spaces on its left and blanks on its right: a converted value is stored as the text
      alone, another one keeps its left side. */
  lemma TrimmedIs(before: string, text: string, after: string, blanks: Blanks)
    requires (forall i :: 0 <= i < |before| ==> before[i] == ' ') && forall i :: 0 <= i < |after| ==> after[i] in blanks
    requires text != [] && text[0] != ' ' && text[|text| - 1] !in blanks && '\0' !in text
    ensures Trimmed(before + text + after, true, blanks) == text
    ensures Trimmed(before + text + after, false, blanks) == before + text
  {
    var raw := before + text + after;
    KeptIs(raw, |before + text|, blanks);
    assert raw[..|before + text|] == before + text;
    NoNul(before, text);
    LeadingSpacesAre(before + text, |before|);
    assert (before + text)[|before|..] == text;
  }

  lemma NoNul(before: string, text: string)
    requires (forall i :: 0 <= i < |before| ==> before[i] == ' ') && '\0' !in text
    ensures CString(before + text) == before + text
  {
    var s := before + text;
    forall k | 0 <= k < |s| ensures s[k] != '\0' {
      assert k < |before| ==> s[k] == before[k];
      assert k >= |before| ==> s[k] == text[k - |before|];
    }
  }

  /** Blanks alone, and a missing value, are stored as nothing. */
  lemma NothingIsStored(after: string, converted: bool, blanks: Blanks)
    requires forall i :: 0 <= i < |after| ==> after[i] in blanks
    ensures Stored(Some(after), converted, blanks) == "" && Stored(None, converted, blanks) == ""
  {
    KeptIs(after, 0, blanks);
  }

  lemma KeptStep(s: string, end: nat, blanks: Blanks)
    requires 0 < end <= |s|
    ensures Kept(s[..end], blanks) == if s[end - 1] in blanks then Kept(s[..end - 1], blanks) else end
    ensures s[..end][end - 1] == s[end - 1]
  {
    assert s[..end][..end - 1] == s[..end - 1];
  }

  /** rtrim: blanks, from position len down, become NULs. */
  method RTrim(str: array<char>, len: nat, blanks: Blanks)
    requires len < str.Length
    modifies str
    ensures var n := Kept(old(str[..len + 1]), blanks);
            && str[..n] == old(str[..n])
            && (forall i :: n <= i <= len ==> str[i] == '\0')
            && (forall i :: len < i < str.Length ==> str[i] == old(str[i]))
  {
    hide Kept;
    var end: nat := len + 1;
    ghost var was := str[..len + 1];
    assert was[..end] == was;
    assert Kept([], blanks) == 0;
    while end > 0 && str[end - 1] in blanks
      invariant end <= len + 1 && Kept(was, blanks) == Kept(was[..end], blanks)
      invariant str[..end] == was[..end]
      invariant forall i :: end <= i <= len ==> str[i] == '\0'
      invariant forall i :: len < i < str.Length ==> str[i] == old(str[i])
    {
      KeptStep(was, end, blanks);
      assert was[..end][end - 1] == str[end - 1];
      end := end - 1;
      str[end] := '\0';
    }
    if end > 0 { KeptStep(was, end, blanks); }
    assert was[..end] == str[..end];
    assert Kept(was, blanks) == end;
  }

  /** ltrim: leading spaces are dropped by moving the rest to the front. */
  method LTrim(str: array<char>, len: nat)
    requires len < str.Length && |CString(str[..])| <= len
    modifies str
    ensures CString(str[..]) == old(var v := CString(str[..]); v[LeadingSpaces(v)..])
  {
    ghost var v := CString(str[..]);
    Bounds(str[..]);
    str[len] := '\0';
    SameCString(str[..], v);
    var start := CountSpaces(str, len, v);
    if start == 0 { return; }
    var n := MoveDown(str, len, start, v);
    ClearRest(str, n, v[start..], |v|);
    CStringIs(str[..], n);
  }

  /** The first loop of ltrim. */
  method CountSpaces(str: array<char>, len: nat, ghost v: string) returns (start: nat)
    requires |v| <= len < str.Length && str[..|v|] == v && str[|v|] == '\0' && '\0' !in v
    ensures start == LeadingSpaces(v)
  {
    start := 0;
    while start < len && str[start] == ' '
      invariant start <= |v| && start <= LeadingSpaces(v)
      decreases len - start
    {
      assert start < |v| ==> v[start] == ' ';
      start := start + 1;
    }
    assert start < |v| ==> str[start] == v[start];
  }

  /** The second loop: the text behind the spaces comes to the front. */
  method MoveDown(str: array<char>, len: nat, from: nat, ghost v: string) returns (n: nat)
    requires |v| <= len < str.Length && str[..|v|] == v && str[|v|] == '\0' && '\0' !in v
    requires 0 < from <= |v|
    modifies str
    ensures n == |v| - from && str[..n] == v[from..] && str[|v|] == '\0'
  {
    var start, size := from, len - from;
    n := 0;
    assert forall i :: 0 <= i < |v| ==> v[i] in v && v[i] != '\0';
    while size > 0 && str[start] != '\0'
      invariant start == n + from && size == len - start && start <= |v|
      invariant forall i :: 0 <= i < n ==> str[i] == v[from + i]
      invariant forall i :: start <= i < |v| ==> str[i] == v[i]
      invariant str[|v|] == '\0'
      decreases size
    {
      str[n] := str[start];
      n, start, size := n + 1, start + 1, size - 1;
    }
  }

  /** The third loop: what is left of the old text is cleared. */
  method ClearRest(str: array<char>, n: nat, ghost kept: string, ghost end: nat)
    requires n <= end < str.Length && str[end] == '\0' && |kept| == n && str[..n] == kept
    modifies str
    ensures str[..n] == kept && str[n] == '\0'
  {
    var at := n;
    while str[at] != '\0'
      invariant n <= at <= end && str[..n] == kept && str[end] == '\0'
      invariant n < at ==> str[n] == '\0'
      decreases end - at
    {
      str[at] := '\0';
      at := at + 1;
    }
  }

  lemma Bounds(s: string)
    ensures forall i :: 0 <= i < |CString(s)| ==> s[i] == CString(s)[i] && s[i] != '\0'
  {
    forall i | 0 <= i < |CString(s)| ensures s[i] == CString(s)[i] && s[i] != '\0' {
      assert CString(s)[i] in CString(s);
    }
  }

  lemma SameCString(s: string, v: string)
    requires |v| < |s| && s[..|v|] == v && s[|v|] == '\0' && '\0' !in v
    ensures CString(s) == v
  {
    CStringIs(s, |v|);
  }

  // ---------------------------------------------------------------- the flat layout

  const MAX_ROW_COUNT: nat := 10000

  /** The sum of the first n capacities: where field n starts in a row. */
  function Start(caps: seq<nat>, n: nat): nat
    requires n <= |caps|
  {
    if n == 0 then 0 else Start(caps, n - 1) + caps[n - 1]
  }

  /** The bytes of one row: every value filled up with NULs to the capacity of its field. */
  function RowBytes(cells: seq<string>, caps: seq<nat>, n: nat): (s: string)
    requires n <= |cells| && n <= |caps| && Fits(cells, caps)
    ensures |s| == Start(caps, n)
  {
    if n == 0 then [] else RowBytes(cells, caps, n - 1) + Padded(cells[n - 1], caps[n - 1])
  }

  predicate Fits(cells: seq<string>, caps: seq<nat>) {
    forall i :: 0 <= i < |cells| && i < |caps| ==> |cells[i]| <= caps[i] && '\0' !in cells[i]
  }

  function Nuls(n: nat): (s: string)
    ensures |s| == n && forall i :: 0 <= i < n ==> s[i] == '\0'
  {
    if n == 0 then [] else ['\0'] + Nuls(n - 1)
  }

  function Padded(value: string, cap: nat): (s: string)
    requires |value| <= cap
    ensures |s| == cap
  {
    value + Nuls(cap - |value|)
  }

  /** The rows of the table one after another. */
  function TableBytes(rows: seq<seq<string>>, caps: seq<nat>, n: nat): (s: string)
    requires n <= |rows| && WellSized(rows, caps)
    ensures |s| == n * Start(caps, |caps|)
  {
    if n == 0 then [] else TableBytes(rows, caps, n - 1) + RowBytes(rows[n - 1], caps, |caps|)
  }

  predicate WellSized(rows: seq<seq<string>>, caps: seq<nat>) {
    forall r :: 0 <= r < |rows| ==> |rows[r]| == |caps| && Fits(rows[r], caps)
  }

  lemma {:induction false} CellInRow(cells: seq<string>, caps: seq<nat>, n: nat, c: nat)
    requires c < n <= |cells| && n <= |caps| && Fits(cells, caps)
    ensures Start(caps, c) + caps[c] <= Start(caps, n)
    ensures RowBytes(cells, caps, n)[Start(caps, c)..Start(caps, c) + caps[c]] == Padded(cells[c], caps[c])
  {
    hide Padded;
    var before := RowBytes(cells, caps, n - 1);
    if c < n - 1 {
      CellInRow(cells, caps, n - 1, c);
      assert RowBytes(cells, caps, n)[Start(caps, c)..Start(caps, c) + caps[c]]
          == before[Start(caps, c)..Start(caps, c) + caps[c]];
    } else {
      assert Start(caps, n) == Start(caps, c) + caps[c];
      assert RowBytes(cells, caps, n)[|before|..] == Padded(cells[c], caps[c]);
    }
  }

  lemma {:induction false} RowInTable(rows: seq<seq<string>>, caps: seq<nat>, n: nat, r: nat)
    requires r < n <= |rows| && WellSized(rows, caps)
    ensures var size := Start(caps, |caps|);
            && (r + 1) * size <= n * size
            && TableBytes(rows, caps, n)[r * size..(r + 1) * size] == RowBytes(rows[r], caps, |caps|)
  {
    var size := Start(caps, |caps|);
    var before, last := TableBytes(rows, caps, n - 1), RowBytes(rows[n - 1], caps, |caps|);
    assert TableBytes(rows, caps, n) == before + last;
    hide RowBytes, TableBytes, Start, WellSized;
    NextRow(n - 1, size);
    if r < n - 1 {
      RowInTable(rows, caps, n - 1, r);
      SliceOfFirst(before, last, r * size, (r + 1) * size);
    } else {
      SliceOfSecond(before, last, r * size, (r + 1) * size);
    }
  }

  lemma SliceOfFirst(a: string, b: string, from: int, behind: int)
    requires 0 <= from <= behind <= |a|
    ensures (a + b)[from..behind] == a[from..behind]
  {
  }

  lemma SliceOfSecond(a: string, b: string, from: int, behind: int)
    requires from == |a| && behind == |a + b|
    ensures (a + b)[from..behind] == b
  {
  }

  /** Where the cell of row r and field c is: row after row, and in a row field after field. */
  function Place(caps: seq<nat>, r: nat, c: nat): nat
    requires c <= |caps|
  {
    r * Start(caps, |caps|) + Start(caps, c)
  }

  lemma RowFits(rows: seq<seq<string>>, caps: seq<nat>, r: nat)
    requires r < |rows| && WellSized(rows, caps)
    ensures |rows[r]| == |caps| && Fits(rows[r], caps)
  {
  }

  /** The bytes of a row in the block. */
  lemma RowSlice(rows: seq<seq<string>>, caps: seq<nat>, r: nat, c: nat) returns (from: nat, behind: nat)
    requires r < |rows| && c <= |caps| && WellSized(rows, caps)
    ensures Place(caps, r, c) == from + Start(caps, c) && from <= behind <= |TableBytes(rows, caps, |rows|)|
    ensures |rows[r]| == |caps| && Fits(rows[r], caps)
    ensures TableBytes(rows, caps, |rows|)[from..behind] == RowBytes(rows[r], caps, |caps|)
  {
    hide RowBytes, TableBytes, Start, WellSized, Fits;
    RowFits(rows, caps, r);
    RowInTable(rows, caps, |rows|, r);
    var size := Start(caps, |caps|);
    NextRow(r, size);
    from, behind := r * size, (r + 1) * size;
  }

  /** The cell of a row and a field is inside the block, at row times row size plus the capacities before. */
  lemma CellInTable(rows: seq<seq<string>>, caps: seq<nat>, r: nat, c: nat)
    requires r < |rows| && c < |caps| && WellSized(rows, caps)
    ensures var at := Place(caps, r, c);
            && at + caps[c] <= |rows| * Start(caps, |caps|)
            && TableBytes(rows, caps, |rows|)[at..at + caps[c]] == Padded(rows[r][c], caps[c])
  {
    hide RowBytes, TableBytes, Padded, Start, WellSized, Fits, Place;
    var from, behind := RowSlice(rows, caps, r, c);
    CellInRow(rows[r], caps, |caps|, c);
    SubSlice(TableBytes(rows, caps, |rows|), RowBytes(rows[r], caps, |caps|), from, behind,
             Start(caps, c), caps[c], Place(caps, r, c));
  }

  lemma NextRow(r: nat, size: nat)
    ensures (r + 1) * size == r * size + size && 0 <= r * size <= (r + 1) * size
  {
  }

  lemma RowsApart(r: nat, q: nat, size: nat)
    requires r <= q
    ensures r * size <= q * size
    decreases q
  {
    if r < q {
      RowsApart(r, q - 1, size);
      NextRow(q - 1, size);
      assert q * size == (q - 1) * size + size;
    }
  }

  /** A part of a slice, at its place in the whole. */
  lemma SubSlice(s: string, t: string, a: nat, b: nat, i: nat, n: nat, at: nat)
    requires a <= b <= |s| && s[a..b] == t && i + n <= |t| && at == a + i
    ensures at + n <= |s| && s[at..at + n] == t[i..i + n]
  {
    var u, v := s[at..at + n], t[i..i + n];
    forall k | 0 <= k < n ensures u[k] == v[k] {
      assert t[i + k] == s[a..b][i + k] == s[a + (i + k)];
    }
  }

  lemma {:induction false} StartsGrow(caps: seq<nat>, a: nat, b: nat)
    requires a <= b <= |caps|
    ensures Start(caps, a) <= Start(caps, b)
  {
    if a < b {
      StartsGrow(caps, a, b - 1);
    }
  }

  /** No two cells share a byte. */
  lemma CellsAreDisjoint(caps: seq<nat>, r: nat, c: nat, q: nat, d: nat)
    requires c < |caps| && d < |caps| && (r < q || (r == q && c < d))
    ensures Place(caps, r, c) + caps[c] <= Place(caps, q, d)
  {
    assert Start(caps, c + 1) == Start(caps, c) + caps[c];
    hide Start;
    var size := Start(caps, |caps|);
    StartsGrow(caps, c + 1, |caps|);
    if r < q {
      NextRow(r, size);
      RowsApart(r + 1, q, size);
    } else {
      StartsGrow(caps, c + 1, d);
    }
  }

  // ---------------------------------------------------------------- fetching and reading

  /** The value that a fetched one is stored as. */
  function Stored(fetched: Option<string>, converted: bool, blanks: Blanks): string {
    if fetched.None? then [] else Trimmed(fetched.value, converted, blanks)
  }

  function StoredRow(fetched: seq<Option<string>>, converted: seq<bool>, blanks: Blanks): (cells: seq<string>)
    requires |fetched| == |converted|
    ensures |cells| == |fetched|
    ensures forall i :: 0 <= i < |fetched| ==> cells[i] == Stored(fetched[i], converted[i], blanks)
  {
    seq(|fetched|, i requires 0 <= i < |fetched| => Stored(fetched[i], converted[i], blanks))
  }

  /** What the reads of the cursor functions end with. */
  datatype Read = Value(text: string) | NotFound | Failure

  class Statement {
    const caps: seq<nat>
    const blanks: Blanks
    const tableSize: nat
    var result: array<char>
    var rowCount: nat
    var rowCurPos: int
    var fieldCurPos: nat
    ghost var rows: seq<seq<string>>

    /** The block holds the rows, each value at its place. */
    ghost predicate Valid()
      reads this, result
    {
      && caps != [] && tableSize == Start(caps, |caps|)
      && WellSized(rows, caps) && rowCount == |rows| <= MAX_ROW_COUNT
      && result.Length == tableSize * MAX_ROW_COUNT
      && rowCount * tableSize <= result.Length
      && result[..rowCount * tableSize] == TableBytes(rows, caps, rowCount)
      && (rowCurPos == -1 || 0 <= rowCurPos < rowCount) && fieldCurPos <= |caps|
    }

    constructor (capacities: seq<nat>, trimmed: Blanks)
      requires capacities != []
      ensures Valid() && caps == capacities && blanks == trimmed && rows == [] && rowCurPos == -1 && fieldCurPos == 0
    {
      caps, blanks := capacities, trimmed;
      tableSize := Start(capacities, |capacities|);
      result := new char[Start(capacities, |capacities|) * MAX_ROW_COUNT];
      rowCount, rowCurPos, fieldCurPos, rows := 0, -1, 0, [];
    }

    /** The value of one fetched field in its buffer, trimmed in place; returns it as a C string. */
    static method TrimValue(bytes: string, converted: bool, blanks: Blanks) returns (text: string)
      requires |bytes| < 4000
      ensures text == Trimmed(bytes, converted, blanks)
    {
      hide Kept, LeadingSpaces;
      var value := new char[4000](_ => '\0');
      forall k | 0 <= k < |bytes| {
        value[k] := bytes[k];
      }
      assert value[..|bytes| + 1] == bytes + "\0";
      RTrim(value, |bytes|, blanks);
      KeptWithNul(bytes, blanks);
      var n := Kept(bytes, blanks);
      CutString(bytes, value[..], n);
      if converted {
        LTrim(value, |bytes|);
      }
      text := CString(value[..]);
    }

    static lemma KeptWithNul(s: string, blanks: Blanks)
      ensures Kept(s + "\0", blanks) == Kept(s, blanks)
    {
      assert (s + "\0")[..|s|] == s;
    }

    static lemma CutString(bytes: string, block: string, n: nat)
      requires n <= |bytes| < |block| && block[..n] == bytes[..n]
      requires forall i :: n <= i <= |bytes| ==> block[i] == '\0'
      ensures CString(block) == CString(bytes[..n])
    {
      var t := CString(bytes[..n]);
      assert block[..|t|] == t by { assert block[..n][..|t|] == bytes[..n][..|t|]; }
      if |t| < n {
        assert block[|t|] == block[..n][|t|] == bytes[..n][|t|] == '\0';
      }
      CStringIs(block, |t|);
    }

    /** One cell: its bytes at the running offset, filled up with NULs. */
    method PutCell(value: string, cap: nat, offset: nat)
      requires |value| <= cap && offset + cap <= result.Length
      modifies result
      ensures result[..offset + cap] == old(result[..offset]) + Padded(value, cap)
    {
      forall k | 0 <= k < cap {
        result[offset + k] := if k < |value| then value[k] else '\0';
      }
      assert result[offset..offset + cap] == Padded(value, cap);
      assert result[..offset] == old(result[..offset]);
      assert result[..offset + cap] == result[..offset] + result[offset..offset + cap];
    }

    /** The inner loop of fetchQueryStatmentResult: one row, written from the running offset on. */
    method PutRow(fetched: seq<Option<string>>, converted: seq<bool>, ghost cells: seq<string>, start: nat)
      returns (offset: nat)
      requires |fetched| == |converted| == |caps| == |cells| && tableSize == Start(caps, |caps|)
      requires start + tableSize <= result.Length && Fits(cells, caps)
      requires forall i :: 0 <= i < |caps| ==>
                 && cells[i] == Stored(fetched[i], converted[i], blanks) && caps[i] < 4000
                 && (fetched[i].Some? ==> |fetched[i].value| == caps[i])
      modifies result
      ensures offset == start + tableSize
      ensures result[..offset] == old(result[..start]) + RowBytes(cells, caps, |caps|)
    {
      hide RowBytes, Padded, Start, Fits, Trimmed;
      StartsGrow(caps, 0, |caps|);
      NothingYet(cells, caps);
      CellsFit(cells, caps);
      offset := start;
      var i := 0;
      while i < |caps|
        invariant i <= |caps| && offset == start + Start(caps, i) <= result.Length
        invariant result[..offset] == old(result[..start]) + RowBytes(cells, caps, i)
      {
        StartsGrow(caps, i + 1, |caps|);
        OneMoreCell(cells, caps, i);
        var value := "";
        if fetched[i].Some? {
          value := TrimValue(fetched[i].value, converted[i], blanks);
        }
        PutCell(value, caps[i], offset);
        offset := offset + caps[i];
        i := i + 1;
      }
    }

    static lemma NothingYet(cells: seq<string>, caps: seq<nat>)
      requires Fits(cells, caps)
      ensures RowBytes(cells, caps, 0) == [] && Start(caps, 0) == 0
    {
    }

    static lemma CellsFit(cells: seq<string>, caps: seq<nat>)
      requires Fits(cells, caps)
      ensures forall i :: 0 <= i < |cells| && i < |caps| ==> |cells[i]| <= caps[i]
    {
    }

    static lemma OneMoreCell(cells: seq<string>, caps: seq<nat>, i: nat)
      requires i < |cells| && i < |caps| && Fits(cells, caps)
      ensures Start(caps, i + 1) == Start(caps, i) + caps[i]
      ensures RowBytes(cells, caps, i + 1) == RowBytes(cells, caps, i) + Padded(cells[i], caps[i])
    {
      hide Padded;
    }

    /** One more row behind those that are there. */
    method FetchRow(fetched: seq<Option<string>>, converted: seq<bool>, start: nat) returns (offset: nat)
      requires Valid() && |converted| == |caps| && RowFits(fetched) && rowCount < MAX_ROW_COUNT
      requires start == rowCount * tableSize && forall i :: 0 <= i < |caps| ==> caps[i] < 4000
      modifies this, result
      ensures Valid() && result == old(result) && rowCurPos == old(rowCurPos) && fieldCurPos == old(fieldCurPos)
      ensures rowCount == old(rowCount) + 1 && offset == rowCount * tableSize
      ensures rows == old(rows) + [StoredRow(fetched, converted, blanks)]
    {
      hide TableBytes, RowBytes, Start, WellSized, Fits;
      ghost var cells, before := StoredRow(fetched, converted, blanks), rows;
      RowsApart(rowCount + 1, MAX_ROW_COUNT, tableSize);
      NextRow(rowCount, tableSize);
      RowIsStored(fetched, converted);
      MoreRows(rows, cells, caps);
      offset := PutRow(fetched, converted, cells, start);
      rows := rows + [cells];
      rowCount := rowCount + 1;
    }

    /** The outer loop of fetchQueryStatmentResult: rows until there are no more, or the block is full. */
    method Fetch(fetched: seq<seq<Option<string>>>, converted: seq<bool>)
      requires Valid() && rows == [] && |converted| == |caps|
      requires forall i :: 0 <= i < |caps| ==> caps[i] < 4000
      requires forall r :: 0 <= r < |fetched| ==> RowFits(fetched[r])
      modifies this, result
      ensures Valid() && result == old(result)
      ensures rowCount == if |fetched| < 10000 then |fetched| else 10000
      ensures forall r :: 0 <= r < rowCount ==>
                |fetched[r]| == |converted| && rows[r] == StoredRow(fetched[r], converted, blanks)
    {
      hide TableBytes, RowBytes, Start, WellSized, Fits;
      var offset := 0;
      var count := 0;
      while count < |fetched| && count < MAX_ROW_COUNT
        invariant count <= |fetched| && count <= MAX_ROW_COUNT
        invariant offset == count * tableSize && Valid() && rowCount == count && result == old(result)
        invariant rowCurPos == old(rowCurPos)
        invariant forall r :: 0 <= r < count ==>
                    |fetched[r]| == |converted| && rows[r] == StoredRow(fetched[r], converted, blanks)
      {
        offset := FetchRow(fetched[count], converted, offset);
        count := count + 1;
      }
    }

    /** A fetched row has a value or NULL for every field, and values as long as the field. */
    predicate RowFits(fetched: seq<Option<string>>) {
      |fetched| == |caps| && forall i :: 0 <= i < |caps| ==> fetched[i].Some? ==> |fetched[i].value| == caps[i]
    }

    lemma RowIsStored(fetched: seq<Option<string>>, converted: seq<bool>)
      requires RowFits(fetched) && |converted| == |caps|
      ensures Fits(StoredRow(fetched, converted, blanks), caps)
    {
    }

    static lemma MoreSized(rows: seq<seq<string>>, cells: seq<string>, caps: seq<nat>)
      requires WellSized(rows, caps) && |cells| == |caps| && Fits(cells, caps)
      ensures WellSized(rows + [cells], caps) && (rows + [cells])[|rows|] == cells
    {
      hide Fits;
    }

    static lemma MoreRows(rows: seq<seq<string>>, cells: seq<string>, caps: seq<nat>)
      requires WellSized(rows, caps) && |cells| == |caps| && Fits(cells, caps)
      ensures WellSized(rows + [cells], caps)
      ensures TableBytes(rows + [cells], caps, |rows| + 1)
           == TableBytes(rows, caps, |rows|) + RowBytes(cells, caps, |caps|)
    {
      hide RowBytes, TableBytes, Start, Fits, WellSized;
      MoreSized(rows, cells, caps);
      PrefixRows(rows, rows + [cells], caps, |rows|);
      OneMoreRow(rows + [cells], caps, |rows|);
    }

    static lemma OneMoreRow(rows: seq<seq<string>>, caps: seq<nat>, n: nat)
      requires n < |rows| && WellSized(rows, caps)
      ensures Fits(rows[n], caps)
      ensures TableBytes(rows, caps, n + 1) == TableBytes(rows, caps, n) + RowBytes(rows[n], caps, |caps|)
    {
      hide RowBytes, Start;
    }

    static lemma {:induction false} PrefixRows(rows: seq<seq<string>>, more: seq<seq<string>>, caps: seq<nat>, n: nat)
      requires n <= |rows| && rows <= more && WellSized(rows, caps) && WellSized(more, caps)
      ensures TableBytes(more, caps, n) == TableBytes(rows, caps, n)
    {
      hide RowBytes, Start;
      if n > 0 {
        PrefixRows(rows, more, caps, n - 1);
      }
    }

    // -------------------------------------------------------------- reading

    /** A cell copied out of the block, as the C string that the caller sees. */
    method CopyCell(row: nat, field: nat) returns (value: string)
      requires Valid() && row < rowCount && field < |caps|
      ensures value == rows[row][field]
    {
      hide TableBytes, RowBytes, Padded;
      var offset, i := 0, 0;
      while i < field
        invariant i <= field && offset == Start(caps, i)
      {
        offset := offset + caps[i];
        i := i + 1;
      }
      offset := offset + row * tableSize;
      CellInTable(rows, caps, row, field);
      CellFits(row, field);
      var copy := result[offset..offset + caps[field]] + "\0";
      assert result[..rowCount * tableSize][offset..offset + caps[field]] == result[offset..offset + caps[field]];
      PaddedIs(rows[row][field], caps[field]);
      value := CString(copy);
    }

    lemma CellFits(row: nat, field: nat)
      requires WellSized(rows, caps) && row < |rows| && field < |caps|
      ensures |rows[row]| == |caps| && |rows[row][field]| <= caps[field] && '\0' !in rows[row][field]
    {
    }

    static lemma PaddedIs(value: string, cap: nat)
      requires |value| <= cap && '\0' !in value
      ensures CString(Padded(value, cap) + "\0") == value
    {
      var s := Padded(value, cap) + "\0";
      assert s[..|value|] == value;
      CStringIs(s, |value|);
    }

    /** DBGetFieldValueIdx with a row and a field that are not negative. */
    method GetFieldValueIdx(row: nat, field: nat) returns (r: Read)
      requires Valid()
      ensures r == if rowCount == 0 then Failure
                   else if row < rowCount && field < |caps| then Value(rows[row][field])
                   else NotFound
    {
      hide TableBytes, RowBytes, Start;
      if rowCount == 0 { return Failure; }
      if row >= rowCount || field >= |caps| { return NotFound; }
      CellFits(row, field);
      var value := CopyCell(row, field);
      return Value(value);
    }

    /** DBGetNextRow. Past the last row the cursor goes back to the first. */
    method GetNextRow() returns (ok: bool)
      requires Valid()
      modifies this`rowCurPos
      ensures Valid() && ok == (rowCount > 0 && old(rowCurPos) + 1 < rowCount)
      ensures rowCurPos == if ok then old(rowCurPos) + 1 else if rowCount > 0 then 0 else old(rowCurPos)
    {
      hide TableBytes, Start;
      if rowCount == 0 { return false; }
      if rowCurPos >= rowCount - 1 {
        rowCurPos := 0;
        return false;
      }
      rowCurPos := rowCurPos + 1;
      return true;
    }

    /** DBGetFieldValue: the next field of the current row; past the last field the cursor goes back. */
    method GetFieldValue() returns (r: Read)
      requires Valid()
      modifies this`rowCurPos, this`fieldCurPos
      ensures Valid()
      ensures rowCount > 0 ==>
                rowCurPos == if old(fieldCurPos) < |caps| && old(rowCurPos) < 0 then 0 else old(rowCurPos)
      ensures rowCount > 0 && old(fieldCurPos) < |caps| ==>
                && fieldCurPos == old(fieldCurPos) + 1 && |rows[rowCurPos]| == |caps|
                && r == Value(rows[rowCurPos][old(fieldCurPos)])
      ensures rowCount > 0 && old(fieldCurPos) == |caps| ==> fieldCurPos == 0 && r == NotFound
      ensures rowCount == 0 ==> r == Failure
    {
      hide TableBytes, RowBytes, Start;
      if rowCount == 0 { return Failure; }
      if fieldCurPos >= |caps| {
        fieldCurPos := 0;
        return NotFound;
      }
      if rowCurPos < 0 { rowCurPos := 0; }
      CellFits(rowCurPos, fieldCurPos);
      var value := CopyCell(rowCurPos, fieldCurPos);
      fieldCurPos := fieldCurPos + 1;
      return Value(value);
    }

    /** All cells of one row by the field cursor. */
    method WalkRow() returns (values: seq<string>)
      requires Valid() && 0 <= rowCurPos < rowCount && fieldCurPos == 0
      modifies this`rowCurPos, this`fieldCurPos
      ensures Valid() && rowCurPos == old(rowCurPos) && fieldCurPos == 0 && values == rows[rowCurPos]
    {
      hide TableBytes, RowBytes, Start;
      values := [];
      CellFits(rowCurPos, 0);
      while true
        invariant Valid() && rowCurPos == old(rowCurPos) && fieldCurPos == |values| <= |caps|
        invariant values == rows[rowCurPos][..fieldCurPos]
        decreases |caps| - fieldCurPos
      {
        var r := GetFieldValue();
        if !r.Value? { break; }
        values := values + [r.text];
      }
    }

    /** The walk with both cursors over a fresh result: every cell once, row after row. */
    method WalkAll() returns (values: seq<seq<string>>)
      requires Valid() && rowCurPos == -1 && fieldCurPos == 0
      modifies this`rowCurPos, this`fieldCurPos
      ensures Valid() && values == rows
    {
      hide TableBytes, RowBytes, Start;
      values := [];
      while true
        invariant Valid() && fieldCurPos == 0 && rowCurPos == |values| - 1 && |values| <= rowCount
        invariant values == rows[..|values|]
        decreases rowCount - |values|
      {
        var more := GetNextRow();
        if !more { break; }
        var row := WalkRow();
        values := values + [row];
      }
      assert rows[..rowCount] == rows;
    }
  }
}
