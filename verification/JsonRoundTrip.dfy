/** Printing a JSON tree and parsing the text gives the tree back, exactly when it is not nested too deeply. */
module JsonRoundTrip {
  import opened Basics
  import opened Json
  import opened JsonText
  import opened JsonReading
  import opened JsonGrammar

  lemma {:induction false} DepthOfLayout(j: Json, format: bool, depth: nat)
    ensures Depth(Layout(j, format, depth)) == Nesting(j)
    decreases j, 1
  {
    hide LayoutItems, LayoutMembers, DepthOfElements, DepthOfPairs, NestingOfItems, NestingOfMembers;
    match j
    case Arr(items) => DepthOfItems(items, format, depth + 1, true);
    case Obj(members) => DepthOfMembers(members, format, depth + 1);
    case _ =>
  }

  lemma {:induction false} DepthOfItems(items: seq<Json>, format: bool, depth: nat, first: bool)
    ensures DepthOfElements(LayoutItems(items, format, depth, first)) == NestingOfItems(items)
    decreases items, 0
  {
    hide Layout, Depth, Nesting;
    if items != [] {
      DepthOfLayout(items[0], format, depth);
      DepthOfItems(items[1..], format, depth, false);
      assert LayoutItems(items, format, depth, first)[1..] == LayoutItems(items[1..], format, depth, false);
    }
  }

  lemma {:induction false} DepthOfMembers(members: seq<Member>, format: bool, depth: nat)
    requires depth > 0
    ensures DepthOfPairs(LayoutMembers(members, format, depth)) == NestingOfMembers(members)
    decreases members, 0
  {
    hide Layout, Depth, Nesting;
    if members != [] {
      DepthOfLayout(members[0].val, format, depth);
      DepthOfMembers(members[1..], format, depth);
      assert LayoutMembers(members, format, depth)[1..] == LayoutMembers(members[1..], format, depth);
    }
  }

  /** A printed string literal is read back, whatever bytes it holds but NUL. */
  lemma ReadString(s: string, off: nat, t: string)
    requires Terminated(s) && StartsWith(s, off, PrintString(t)) && NulFree(t)
    ensures off < |s| && ParseString(s, off) == Ok(t, off + |PrintString(t)|)
  {
    hide Escape, ParseString, StartsWith, Meant;
    EscapeDenotes(t);
    LiteralIsRead(Escape(t), s, off);
  }

  /** The text of j at off, followed by something that ends a value. */
  predicate ValueAt(j: Json, s: string, off: nat, format: bool, d: nat) {
    && StartsWith(s, off, Print(j, format, d))
    && off + |Print(j, format, d)| < |s|
    && Ends(s[off + |Print(j, format, d)|])
  }

  /** A printed value is read back wherever it stands. */
  lemma ReadValue(j: Json, s: string, off: nat, format: bool, d: nat, depth: nat)
    requires Terminated(s) && Printable(j) && depth <= NESTING_LIMIT
    requires ValueAt(j, s, off, format, d)
    ensures ParseValue(s, off, depth)
         == Expected(depth + Nesting(j) <= NESTING_LIMIT, j, off + |Print(j, format, d)|)
  {
    hide Print, Layout, Spell, ParseValue, Printable, Nesting, Depth, Denoted, Proper, Ends, StartsWith;
    PrintIsLayout(j, format, d);
    LayoutIsProper(j, format, d);
    DepthOfLayout(j, format, d);
    SyntaxIsRead(Layout(j, format, d), s, off, depth);
  }

  /** A printed value is a C string. */
  lemma PrintIsNulFree(j: Json, format: bool, d: nat)
    requires Printable(j)
    ensures NulFree(Print(j, format, d))
  {
    hide Print, Layout, Spell, Printable, Proper, NulFree;
    PrintIsLayout(j, format, d);
    LayoutIsProper(j, format, d);
    SpellIsNulFree(Layout(j, format, d));
  }

  /** The main theorem: what either printer writes is read back whole, exactly when the nesting stays
      within the limit; deeper trees are refused. */
  lemma PrintThenParse(j: Json, format: bool, toTheEnd: bool)
    requires Printable(j)
    ensures ParseText(Print(j, format, 0), toTheEnd)
         == Expected(Nesting(j) <= NESTING_LIMIT, j, |Print(j, format, 0)|)
  {
    hide Print, Layout, Printable, Nesting, Depth, ParseText, Proper, Denoted, JsonTextOf;
    PrintIsJsonText(j, format);
    DepthOfLayout(j, format, 0);
    EveryTextIsRead(false, "", Layout(j, format, 0), "", toTheEnd);
  }
}
