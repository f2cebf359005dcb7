/** The JSON messages between client and server: requests with statements, responses with a table. */
module Message {
  import opened Basics
  import opened Json
  import opened JsonText
  import opened JsonReading
  import opened JsonRoundTrip

  const INT_MAX: int := 0x7FFF_FFFF
  const INT_MIN: int := -0x8000_0000

  /** A text, or NULL. */
  type Text = Option<string>

  datatype Outcome<+T> = Accepted(value: T) | Refused | Unknown

  // ---------------------------------------------------------------- reading a tree

  function TextOf(leaf: Option<Json>): Text {
    if leaf.Some? && leaf.value.Str? then Some(leaf.value.s) else None
  }

  /** An int in a uint32_t, as the client keeps the numbers of a response. */
  function Unsigned32(n: int): (r: nat)
    requires INT_MIN <= n <= INT_MAX
    ensures r == if n < 0 then n + 0x1_0000_0000 else n
  {
    n % 0x1_0000_0000
  }

  /** valueint: the number, saturated. */
  function IntOf(n: int): (i: int)
    ensures INT_MIN <= i <= INT_MAX
  {
    if n >= INT_MAX then INT_MAX else if n <= INT_MIN then INT_MIN else n
  }

  // ---------------------------------------------------------------- requests

  datatype Statement = Single(sql: string) | Upsert(update: string, insert: string)

  /** What the client fills in; a NULL statement means an update and an insert. */
  datatype Draft = Draft(
    app: Text, uuid: Text, pid: nat, kind: Text, asynchronous: bool, channel: Text,
    timestamp: nat, statement: Text, update: Text, insert: Text)

  /** What the server keeps. */
  datatype Request = Request(
    uuid: string, app: string, pid: int, kind: string, sync: bool, channel: Text, timestamp: int,
    statement: Statement)

  /** No string is NULL that has to be sent. */
  predicate Complete(d: Draft) {
    && d.app.Some? && d.uuid.Some? && d.kind.Some? && d.channel.Some?
    && (d.statement.Some? || (d.update.Some? && d.insert.Some?))
  }

  function StatementOf(d: Draft): Statement
    requires Complete(d)
  {
    if d.statement.Some? then Single(d.statement.value) else Upsert(d.update.value, d.insert.value)
  }

  function StatementTree(s: Statement): Json {
    match s
    case Single(sql) => Str(sql)
    case Upsert(update, insert) => Obj([Member("update", Str(update)), Member("insert", Str(insert))])
  }

  function RequestTree(d: Draft): Json
    requires Complete(d)
  {
    Obj([Member("app", Str(d.app.value)), Member("uuid", Str(d.uuid.value)), Member("pid", Num(d.pid)),
         Member("type", Str(d.kind.value)), Member("sync", if d.asynchronous then False else True),
         Member("rchannel", Str(d.channel.value)), Member("timestamp", Num(d.timestamp)),
         Member("statement", StatementTree(StatementOf(d)))])
  }

  /** marshallJson. */
  function Marshal(d: Draft): Text {
    if Complete(d) then Some(Print(RequestTree(d), false, 0)) else None
  }

  /** What is sent at all: nothing with a string missing that has to be there. */
  lemma SentExactly(d: Draft)
    ensures Marshal(d).Some? <==>
            && d.app != None && d.uuid != None && d.kind != None && d.channel != None
            && (d.statement != None || (d.update != None && d.insert != None))
  {
    hide Print;
  }

  /** The statement of a request. */
  function ReadStatement(leaf: Option<Json>): Option<Statement> {
    if leaf.None? then None
    else if leaf.value.Str? then Some(Single(leaf.value.s))
    else
      var update, insert := TextOf(Item(leaf.value, "UPDATE")), TextOf(Item(leaf.value, "INSERT"));
      if update.Some? && insert.Some? then Some(Upsert(update.value, insert.value)) else None
  }

  /** sqlbus_parse_request on a parsed tree. */
  function ReadRequest(root: Json): Option<Request> {
    var uuid, app, pid := TextOf(Item(root, "UUID")), TextOf(Item(root, "APP")), Item(root, "PID");
    var kind, sync, channel := TextOf(Item(root, "TYPE")), Item(root, "SYNC"), TextOf(Item(root, "RCHANNEL"));
    var timestamp, statement := Item(root, "TIMESTAMP"), ReadStatement(Item(root, "STATEMENT"));
    if uuid.None? || app.None? || pid.None? || !pid.value.Num? || kind.None? then None
    else if sync.None? || !(sync.value.True? || sync.value.False?) then None
    else if channel.None? && sync.value.True? then None
    else if timestamp.None? || !timestamp.value.Num? || statement.None? then None
    else Some(Request(uuid.value, app.value, IntOf(pid.value.n), kind.value, sync.value.True?, channel,
                      timestamp.value.n, statement.value))
  }

  /** Which trees are requests: five texts and numbers, a flag, a channel unless the flag is false, and a
      statement that is a text or holds an update and an insert. */
  lemma RequestsExactly(root: Json)
    ensures ReadRequest(root).Some? <==>
            && Item(root, "uuid").Some? && Item(root, "uuid").value.Str?
            && Item(root, "app").Some? && Item(root, "app").value.Str?
            && Item(root, "pid").Some? && Item(root, "pid").value.Num?
            && Item(root, "type").Some? && Item(root, "type").value.Str?
            && Item(root, "timestamp").Some? && Item(root, "timestamp").value.Num?
            && (Item(root, "sync") == Some(False)
                || (Item(root, "sync") == Some(True)
                    && Item(root, "rchannel").Some? && Item(root, "rchannel").value.Str?))
            && Item(root, "statement").Some?
            && var statement := Item(root, "statement").value;
               || statement.Str?
               || (Item(statement, "update").Some? && Item(statement, "update").value.Str?
                   && Item(statement, "insert").Some? && Item(statement, "insert").value.Str?)
  {
    hide Item, Fold;
    FoldedKeys();
    SameItem(root, "UUID", "uuid");
    SameItem(root, "APP", "app");
    SameItem(root, "PID", "pid");
    SameItem(root, "TYPE", "type");
    SameItem(root, "SYNC", "sync");
    SameItem(root, "RCHANNEL", "rchannel");
    SameItem(root, "TIMESTAMP", "timestamp");
    SameItem(root, "STATEMENT", "statement");
    if Item(root, "statement").Some? {
      SameItem(Item(root, "statement").value, "UPDATE", "update");
      SameItem(Item(root, "statement").value, "INSERT", "insert");
    }
  }

  /** Keys are looked up without their case. */
  lemma SameItem(j: Json, a: string, b: string)
    requires Fold(a) == Fold(b)
    ensures Item(j, a) == Item(j, b)
  {
    hide Fold, Find;
    if j.Obj? { SameFind(j.members, a, b); }
  }

  lemma {:induction false} SameFind(members: seq<Member>, a: string, b: string)
    requires Fold(a) == Fold(b)
    ensures Find(members, a) == Find(members, b)
  {
    hide Fold;
    if members != [] { SameFind(members[1..], a, b); }
  }

  function ParseRequest(text: string): Outcome<Request> {
    match ParseText(text, false)
    case Bad => Refused
    case NotModelled => Unknown
    case Ok(root, _) =>
      var request := ReadRequest(root);
      if request.None? then Refused else Accepted(request.value)
  }

  /** valueint stops at the ends of an int. */
  lemma IntSaturates(n: int)
    ensures n > 2147483647 ==> IntOf(n) == 2147483647
    ensures n < -2147483648 ==> IntOf(n) == -2147483648
    ensures -2147483648 <= n <= 2147483647 ==> IntOf(n) == n
  {
  }

  function Field(key: string, value: string): string {
    "\"" + key + "\":" + value
  }

  predicate SmallLetters(key: string) {
    forall i :: 0 <= i < |key| ==> 'a' <= key[i] <= 'z'
  }

  lemma KeyIsPlain(key: string)
    requires SmallLetters(key)
    ensures PrintString(key) == "\"" + key + "\""
  {
    PlainEscape(key);
  }

  lemma {:induction false} PlainEscape(key: string)
    requires SmallLetters(key)
    ensures Escape(key) == key
  {
    if key != [] {
      PlainEscape(key[1..]);
      assert [key[0]] + key[1..] == key;
    }
  }

  lemma Glued(key: string, value: string, comma: string, rest: string)
    ensures [] + ("\"" + key + "\"") + ":" + value + (comma + []) + rest == Field(key, value) + (comma + rest)
  {
    assert "\"" + key + "\":" == [] + ("\"" + key + "\"") + ":";
  }

  /** One member of an object, printed without white space. */
  lemma MemberText(key: string, val: Json, others: seq<Member>, depth: nat)
    requires SmallLetters(key)
    ensures PrintMembers([Member(key, val)] + others, false, depth)
         == Field(key, Print(val, false, depth))
            + if others == [] then "" else "," + PrintMembers(others, false, depth)
  {
    hide Print, PrintString, Field;
    var members := [Member(key, val)] + others;
    assert members[1..] == others;
    KeyIsPlain(key);
    var rest := PrintMembers(others, false, depth);
    Glued(key, Print(val, false, depth), if others == [] then "" else ",", rest);
    assert Indent(false, depth) == [] && Colon(false) == ":";
    assert Separator(|members| > 1, false) == (if others == [] then "" else ",") + [];
    assert others == [] ==> rest == [] && Field(key, Print(val, false, depth)) + ("" + rest)
                                          == Field(key, Print(val, false, depth)) + "";
  }

  function Listed(texts: seq<string>): string {
    if texts == [] then "" else texts[0] + if |texts| == 1 then "" else "," + Listed(texts[1..])
  }

  /** The members of an object on the wire, with keys of small letters. */
  lemma {:induction false} MembersText(members: seq<Member>, texts: seq<string>, depth: nat)
    requires |texts| == |members|
    requires forall i :: 0 <= i < |members| ==>
               && SmallLetters(members[i].key)
               && texts[i] == Field(members[i].key, Print(members[i].val, false, depth))
    ensures PrintMembers(members, false, depth) == Listed(texts)
  {
    hide Print, Field, PrintMembers, SmallLetters;
    if members == [] {
      assert PrintMembers([], false, depth) == [] by { EmptyMembers(false, depth); }
    } else {
      MembersText(members[1..], texts[1..], depth);
      MemberText(members[0].key, members[0].val, members[1..], depth);
      assert [members[0]] + members[1..] == members;
      assert texts[0] + "" == texts[0];
    }
  }

  function StatementText(s: Statement): string {
    match s
    case Single(sql) => PrintString(sql)
    case Upsert(update, insert) =>
      "{" + Listed([Field("update", PrintString(update)), Field("insert", PrintString(insert))]) + "}"
  }

  lemma StatementOnTheWire(s: Statement, depth: nat)
    ensures Print(StatementTree(s), false, depth) == StatementText(s)
  {
    hide PrintString, Field, PrintMembers, Listed;
    if s.Upsert? {
      MembersText(StatementTree(s).members,
                  [Field("update", PrintString(s.update)), Field("insert", PrintString(s.insert))], depth + 1);
    }
  }

  lemma RequestKeysAreSmall()
    ensures SmallLetters("app") && SmallLetters("uuid") && SmallLetters("pid") && SmallLetters("type")
    ensures SmallLetters("sync") && SmallLetters("rchannel") && SmallLetters("timestamp") && SmallLetters("statement")
  {
  }

  lemma LeafText(s: string, n: int, depth: nat)
    ensures Print(Str(s), false, depth) == PrintString(s) && Print(Num(n), false, depth) == PrintNumber(n)
    ensures Print(False, false, depth) == "false" && Print(True, false, depth) == "true"
  {
  }

  /** A request on the wire, member by member. */
  lemma RequestOnTheWire(d: Draft)
    requires Complete(d)
    ensures Marshal(d) ==
            Some("{" + Listed([Field("app", PrintString(d.app.value)), Field("uuid", PrintString(d.uuid.value)),
                               Field("pid", PrintNumber(d.pid)), Field("type", PrintString(d.kind.value)),
                               Field("sync", if d.asynchronous then "false" else "true"),
                               Field("rchannel", PrintString(d.channel.value)),
                               Field("timestamp", PrintNumber(d.timestamp)),
                               Field("statement", StatementText(StatementOf(d)))]) + "}")
  {
    hide PrintString, PrintNumber, Field, Print, PrintMembers, Listed, StatementText, StatementTree, SmallLetters;
    StatementOnTheWire(StatementOf(d), 1);
    RequestKeysAreSmall();
    LeafText(d.app.value, d.pid, 1);
    LeafText(d.uuid.value, d.timestamp, 1);
    LeafText(d.kind.value, 0, 1);
    LeafText(d.channel.value, 0, 1);
    var texts := [Field("app", PrintString(d.app.value)), Field("uuid", PrintString(d.uuid.value)),
                  Field("pid", PrintNumber(d.pid)), Field("type", PrintString(d.kind.value)),
                  Field("sync", if d.asynchronous then "false" else "true"),
                  Field("rchannel", PrintString(d.channel.value)), Field("timestamp", PrintNumber(d.timestamp)),
                  Field("statement", StatementText(StatementOf(d)))];
    MembersText(RequestTree(d).members, texts, 1);
    PlainObject(RequestTree(d).members);
  }

  lemma PlainObject(members: seq<Member>)
    ensures Print(Obj(members), false, 0) == "{" + PrintMembers(members, false, 1) + "}"
  {
    hide PrintMembers;
    assert Indent(false, 0) == [];
  }

  // ---------------------------------------------------------------- requests arrive

  /** The strings of a draft are C strings, and its numbers fit: the process number 32 bits, the time an int. */
  predicate Sendable(d: Draft) {
    && Complete(d) && NulFree(d.app.value) && NulFree(d.uuid.value) && NulFree(d.kind.value)
    && NulFree(d.channel.value) && d.pid < 0x1_0000_0000 && d.timestamp <= INT_MAX
    && (match StatementOf(d)
        case Single(sql) => NulFree(sql)
        case Upsert(update, insert) => NulFree(update) && NulFree(insert))
  }

  lemma FoldedKeys()
    ensures Fold("UUID") == Fold("uuid") == "uuid" && Fold("APP") == Fold("app") == "app"
    ensures Fold("PID") == Fold("pid") == "pid" && Fold("TYPE") == Fold("type") == "type"
    ensures Fold("SYNC") == Fold("sync") == "sync" && Fold("RCHANNEL") == Fold("rchannel") == "rchannel"
    ensures Fold("TIMESTAMP") == Fold("timestamp") == "timestamp"
    ensures Fold("STATEMENT") == Fold("statement") == "statement"
    ensures Fold("UPDATE") == Fold("update") == "update" && Fold("INSERT") == Fold("insert") == "insert"
  {
    hide Fold;
    FoldIs("UUID", "uuid");
    FoldIs("APP", "app");
    FoldIs("PID", "pid");
    FoldIs("TYPE", "type");
    FoldIs("SYNC", "sync");
    FoldIs("RCHANNEL", "rchannel");
    FoldIs("TIMESTAMP", "timestamp");
    FoldIs("STATEMENT", "statement");
    FoldIs("UPDATE", "update");
    FoldIs("INSERT", "insert");
  }

  /** Folding a word and its lower-case form. */
  lemma {:induction false} FoldIs(upper: string, lower: string)
    requires |upper| == |lower|
    requires forall i :: 0 <= i < |upper| ==> ToLower(upper[i]) == ToLower(lower[i]) == lower[i]
    ensures Fold(upper) == Fold(lower) == lower
  {
    if upper != [] {
      FoldIs(upper[1..], lower[1..]);
    }
  }

  lemma ItemsOfRequest(d: Draft)
    requires Complete(d)
    ensures var root := RequestTree(d);
            && Item(root, "APP") == Some(Str(d.app.value)) && Item(root, "UUID") == Some(Str(d.uuid.value))
            && Item(root, "PID") == Some(Num(d.pid)) && Item(root, "TYPE") == Some(Str(d.kind.value))
            && Item(root, "SYNC") == Some(if d.asynchronous then False else True)
            && Item(root, "RCHANNEL") == Some(Str(d.channel.value))
            && Item(root, "TIMESTAMP") == Some(Num(d.timestamp))
            && Item(root, "STATEMENT") == Some(StatementTree(StatementOf(d)))
  {
    hide Fold, Find, StatementTree;
    FoldedKeys();
    var members := RequestTree(d).members;
    FindIs(members, "APP", 0);
    FindIs(members, "UUID", 1);
    FindIs(members, "PID", 2);
    FindIs(members, "TYPE", 3);
    FindIs(members, "SYNC", 4);
    FindIs(members, "RCHANNEL", 5);
    FindIs(members, "TIMESTAMP", 6);
    FindIs(members, "STATEMENT", 7);
  }

  lemma StatementReads(s: Statement)
    ensures ReadStatement(Some(StatementTree(s))) == Some(s)
  {
    hide Fold, Find;
    FoldedKeys();
    if s.Upsert? {
      var members := StatementTree(s).members;
      FindIs(members, "UPDATE", 0);
      FindIs(members, "INSERT", 1);
    }
  }

  lemma RequestPrintable(d: Draft)
    requires Sendable(d)
    ensures Printable(RequestTree(d)) && Nesting(RequestTree(d)) <= 2
  {
    hide Nesting, NulFree, StatementTree;
    NestingOfRequest(d);
    StatementPrintable(StatementOf(d));
    assert NulFree("app") && NulFree("uuid") && NulFree("pid") && NulFree("type") by { KeysPrintable(); }
    assert NulFree("timestamp") by { KeysPrintable(); }
    RequestKeysPrintable();
  }

  lemma StatementPrintable(s: Statement)
    requires match s
             case Single(sql) => NulFree(sql)
             case Upsert(update, insert) => NulFree(update) && NulFree(insert)
    ensures Printable(StatementTree(s))
  {
    RequestKeysPrintable();
    hide NulFree;
  }

  lemma RequestKeysPrintable()
    ensures NulFree("sync") && NulFree("rchannel") && NulFree("statement") && NulFree("update") && NulFree("insert")
  {
  }

  lemma NestingOfRequest(d: Draft)
    requires Complete(d)
    ensures Nesting(RequestTree(d)) <= 2
  {
    var members := RequestTree(d).members;
    StatementNesting(StatementOf(d));
    assert forall i :: 0 <= i < |members| ==> Nesting(members[i].val) <= 1;
    ShallowMembers(members, 1);
  }

  lemma StatementNesting(s: Statement)
    ensures Nesting(StatementTree(s)) <= 1
  {
    if s.Upsert? {
      ShallowMembers(StatementTree(s).members, 0);
    }
  }

  lemma {:induction false} ShallowMembers(members: seq<Member>, n: nat)
    requires forall i :: 0 <= i < |members| ==> Nesting(members[i].val) <= n
    ensures NestingOfMembers(members) <= n
  {
    if members != [] {
      ShallowMembers(members[1..], n);
    }
  }

  /** The main theorem on requests: what the client sends, the server recovers field by field. The process
      number is saturated, so it arrives unchanged exactly when it is below two to the thirty-first. */
  lemma RequestRoundTrip(d: Draft)
    requires Sendable(d)
    ensures Marshal(d).Some?
    ensures ParseRequest(Marshal(d).value)
         == Accepted(Request(d.uuid.value, d.app.value, IntOf(d.pid), d.kind.value, !d.asynchronous, d.channel,
                             d.timestamp, StatementOf(d)))
    ensures IntOf(d.pid) == d.pid <==> d.pid <= INT_MAX
  {
    hide Print, ParseText, Item, RequestTree, StatementTree, Printable, Nesting, ReadStatement;
    RequestPrintable(d);
    PrintThenParse(RequestTree(d), false, false);
    ItemsOfRequest(d);
    StatementReads(StatementOf(d));
  }

  /** A synchronous request that was accepted says where its answer goes. */
  lemma SyncHasChannel(text: string)
    requires ParseRequest(text).Accepted? && ParseRequest(text).value.sync
    ensures ParseRequest(text).value.channel.Some?
  {
    hide ParseText, Item, TextOf, ReadStatement;
  }

  // ---------------------------------------------------------------- responses

  datatype Header = Header(pid: nat, dbtype: string, timestamp: nat, uuid: string, message: string, errorid: int)

  datatype Table = Table(names: seq<string>, rows: seq<seq<string>>)

  function Strings(ss: seq<string>): (js: seq<Json>)
    ensures |js| == |ss| && forall i :: 0 <= i < |ss| ==> js[i] == Str(ss[i])
  {
    if ss == [] then [] else [Str(ss[0])] + Strings(ss[1..])
  }

  function Rows(rows: seq<seq<string>>): (js: seq<Json>)
    ensures |js| == |rows| && forall i :: 0 <= i < |rows| ==> js[i] == Arr(Strings(rows[i]))
  {
    if rows == [] then [] else [Arr(Strings(rows[0]))] + Rows(rows[1..])
  }

  /** The tree that sqlbus_generate_response builds. */
  function ResponseTree(h: Header, t: Table): Json {
    Obj([Member("type", Str("response")), Member("app", Str("SQLBUS-SERVER")), Member("pid", Num(h.pid)),
         Member("dbtype", Str(h.dbtype)), Member("timestamp", Num(h.timestamp)), Member("uuid", Str(h.uuid)),
         Member("message", Str(h.message)), Member("errorid", Num(h.errorid)),
         Member("fields", Num(|t.names|)), Member("field", Arr(Strings(t.names))),
         Member("rows", Num(|t.rows|)), Member("result", Arr(Rows(t.rows)))])
  }

  /** What the client keeps of a response. */
  datatype Response = Response(
    kind: string, app: string, dbtype: string, uuid: string, message: string, pid: nat, timestamp: nat,
    errorid: nat, fieldCount: nat, rowCount: nat, fieldData: seq<Json>, rowData: seq<Json>)

  predicate IsText(leaf: Option<Json>) {
    leaf.Some? && leaf.value.Str?
  }

  predicate IsNumber(leaf: Option<Json>) {
    leaf.Some? && leaf.value.Num?
  }

  /** A number of a response, as the client keeps it. */
  function CountOf(leaf: Option<Json>): nat
    requires IsNumber(leaf)
  {
    Unsigned32(IntOf(leaf.value.n))
  }

  predicate IsArray(leaf: Option<Json>) {
    leaf.Some? && leaf.value.Arr?
  }

  /** unMarshallJson on a parsed tree. The members it means to ignore when they are missing are in fact
      required: a result that is a success with information does not pass the check of all results. */
  function ReadResponse(root: Json): Option<Response> {
    var kind, app, dbtype := Item(root, "type"), Item(root, "app"), Item(root, "dbtype");
    var uuid, message := Item(root, "uuid"), Item(root, "message");
    var pid, timestamp, errorid := Item(root, "pid"), Item(root, "timestamp"), Item(root, "errorid");
    var fields, rows := Item(root, "fields"), Item(root, "rows");
    var field, result := Item(root, "field"), Item(root, "result");
    if IsText(kind) && IsText(app) && IsText(dbtype) && IsText(uuid) && IsText(message)
       && IsNumber(pid) && IsNumber(timestamp) && IsNumber(errorid) && IsNumber(fields) && IsNumber(rows)
       && IsArray(field) && IsArray(result)
       && |field.value.items| == IntOf(fields.value.n) && |result.value.items| == IntOf(rows.value.n)
    then Some(Response(kind.value.s, app.value.s, dbtype.value.s, uuid.value.s, message.value.s,
                       CountOf(pid), CountOf(timestamp), CountOf(errorid), CountOf(fields), CountOf(rows),
                       field.value.items, result.value.items))
    else None
  }

  function ParseResponse(text: string): Outcome<Response> {
    match ParseText(text, false)
    case Bad => Refused
    case NotModelled => Unknown
    case Ok(root, _) =>
      var response := ReadResponse(root);
      if response.None? then Refused else Accepted(response.value)
  }

  /** getRowValue. */
  function GetRowValue(data: seq<Json>, row: int, column: int): Text {
    if 0 <= row < |data| && data[row].Arr? && 0 <= column < |data[row].items| && data[row].items[column].Str?
    then Some(data[row].items[column].s)
    else None
  }

  /** The first name that matches up to case; entries that are not strings end the search. */
  function FieldIdx(data: seq<Json>, name: string): Option<nat> {
    if data == [] || !data[0].Str? then None
    else if Fold(name) == Fold(data[0].s) then Some(0)
    else
      var rest := FieldIdx(data[1..], name);
      if rest.None? then None else Some(rest.value + 1)
  }

  /** getFieldIdx. */
  method GetFieldIdx(data: seq<Json>, name: string) returns (found: bool, idx: nat)
    ensures found == FieldIdx(data, name).Some?
    ensures found ==> idx == FieldIdx(data, name).value
  {
    hide Fold;
    var i := 0;
    assert data[0..] == data;
    while i < |data|
      invariant i <= |data|
      invariant FieldIdx(data, name).Some? <==> FieldIdx(data[i..], name).Some?
      invariant FieldIdx(data, name).Some? ==> FieldIdx(data, name).value == i + FieldIdx(data[i..], name).value
    {
      assert data[i..][1..] == data[i + 1..];
      if !data[i].Str? { return false, 0; }
      if Fold(name) == Fold(data[i].s) { return true, i; }
      i := i + 1;
    }
    return false, 0;
  }

  // ---------------------------------------------------------------- responses arrive

  ghost predicate AllNulFree(ss: seq<string>) {
    forall i :: 0 <= i < |ss| ==> NulFree(ss[i])
  }

  /** A result table as a driver delivers it: C strings, and as many cells in each row as there are names. */
  ghost predicate Presentable(h: Header, t: Table) {
    && NulFree(h.dbtype) && NulFree(h.uuid) && NulFree(h.message) && AllNulFree(t.names)
    && (forall i :: 0 <= i < |t.rows| ==> |t.rows[i]| == |t.names| && AllNulFree(t.rows[i]))
    && |t.names| <= INT_MAX && |t.rows| <= INT_MAX && h.pid <= INT_MAX && h.timestamp <= INT_MAX
    && INT_MIN <= h.errorid <= INT_MAX
  }

  lemma FoldedResponseKeys()
    ensures Fold("app") == "app" && Fold("uuid") == "uuid" && Fold("pid") == "pid" && Fold("type") == "type"
    ensures Fold("timestamp") == "timestamp" && Fold("dbtype") == "dbtype" && Fold("message") == "message"
    ensures Fold("errorid") == "errorid" && Fold("fields") == "fields" && Fold("field") == "field"
    ensures Fold("rows") == "rows" && Fold("result") == "result"
  {
    hide Fold;
    FoldedKeys();
    FoldIs("dbtype", "dbtype");
    FoldIs("message", "message");
    FoldIs("errorid", "errorid");
    FoldIs("fields", "fields");
    FoldIs("field", "field");
    FoldIs("rows", "rows");
    FoldIs("result", "result");
  }

  lemma HeadOfResponse(h: Header, t: Table)
    ensures var root := ResponseTree(h, t);
            && Item(root, "type") == Some(Str("response")) && Item(root, "app") == Some(Str("SQLBUS-SERVER"))
            && Item(root, "pid") == Some(Num(h.pid)) && Item(root, "dbtype") == Some(Str(h.dbtype))
  {
    hide Item, Fold, Strings, Rows;
    FoldedResponseKeys();
    var members := ResponseTree(h, t).members;
    ItemAt(members, 0);
    ItemAt(members, 1);
    ItemAt(members, 2);
    ItemAt(members, 3);
  }

  lemma MiddleOfResponse(h: Header, t: Table)
    ensures var root := ResponseTree(h, t);
            && Item(root, "timestamp") == Some(Num(h.timestamp)) && Item(root, "uuid") == Some(Str(h.uuid))
            && Item(root, "message") == Some(Str(h.message)) && Item(root, "errorid") == Some(Num(h.errorid))
  {
    hide Item, Fold, Strings, Rows;
    FoldedResponseKeys();
    var members := ResponseTree(h, t).members;
    ItemAt(members, 4);
    ItemAt(members, 5);
    ItemAt(members, 6);
    ItemAt(members, 7);
  }

  lemma BodyOfResponse(h: Header, t: Table)
    ensures var root := ResponseTree(h, t);
            && Item(root, "fields") == Some(Num(|t.names|)) && Item(root, "field") == Some(Arr(Strings(t.names)))
            && Item(root, "rows") == Some(Num(|t.rows|)) && Item(root, "result") == Some(Arr(Rows(t.rows)))
  {
    hide Item, Fold, Strings, Rows;
    FoldedResponseKeys();
    var members := ResponseTree(h, t).members;
    ItemAt(members, 8);
    ItemAt(members, 9);
    ItemAt(members, 10);
    ItemAt(members, 11);
  }

  lemma ResponseReads(h: Header, t: Table)
    requires Presentable(h, t)
    ensures ReadResponse(ResponseTree(h, t)) ==
              Some(Response("response", "SQLBUS-SERVER", h.dbtype, h.uuid, h.message, h.pid, h.timestamp,
                            Unsigned32(h.errorid),
                            |t.names|, |t.rows|, Strings(t.names), Rows(t.rows)))
  {
    hide Item, ResponseTree, AllNulFree, NulFree;
    HeadOfResponse(h, t);
    MiddleOfResponse(h, t);
    BodyOfResponse(h, t);
  }

  lemma {:induction false} FlatItems(items: seq<Json>, n: nat)
    requires forall i :: 0 <= i < |items| ==> Nesting(items[i]) <= n
    ensures NestingOfItems(items) <= n
  {
    if items != [] {
      FlatItems(items[1..], n);
    }
  }

  lemma RowNesting(ss: seq<string>)
    ensures Nesting(Arr(Strings(ss))) <= 1
  {
    FlatItems(Strings(ss), 0);
  }

  lemma RowPrintable(ss: seq<string>)
    requires AllNulFree(ss)
    ensures Printable(Arr(Strings(ss)))
  {
    hide NulFree;
  }

  lemma ResponsePrintable(h: Header, t: Table)
    requires Presentable(h, t)
    ensures Printable(ResponseTree(h, t))
  {
    hide Strings, Rows, AllNulFree, NulFree;
    forall i | 0 <= i < |t.rows| ensures Printable(Rows(t.rows)[i]) {
      RowPrintable(t.rows[i]);
    }
    RowPrintable(t.names);
    assert Printable(Arr(Rows(t.rows)));
    assert NulFree("response") && NulFree("SQLBUS-SERVER") by { PlainWords(); }
    KeysPrintable();
  }

  lemma PlainWords()
    ensures NulFree("response") && NulFree("SQLBUS-SERVER")
  {
  }

  lemma KeysPrintable()
    ensures NulFree("type") && NulFree("app") && NulFree("pid") && NulFree("dbtype") && NulFree("timestamp")
    ensures NulFree("uuid") && NulFree("message") && NulFree("errorid") && NulFree("fields") && NulFree("field")
    ensures NulFree("rows") && NulFree("result")
  {
  }

  lemma ResponseNesting(h: Header, t: Table)
    ensures Nesting(ResponseTree(h, t)) <= 3
  {
    hide Strings, Rows;
    forall i | 0 <= i < |t.rows| ensures Nesting(Rows(t.rows)[i]) <= 1 {
      RowNesting(t.rows[i]);
    }
    RowNesting(t.names);
    FlatItems(Rows(t.rows), 1);
    var members := ResponseTree(h, t).members;
    assert forall i :: 0 <= i < |members| ==> Nesting(members[i].val) <= 2;
    ShallowMembers(members, 2);
  }

  /** The first position of a name up to case, among plain names. */
  function FirstMatch(names: seq<string>, name: string): Option<nat> {
    if names == [] then None
    else if Fold(name) == Fold(names[0]) then Some(0)
    else
      var rest := FirstMatch(names[1..], name);
      if rest.None? then None else Some(rest.value + 1)
  }

  /** It is there exactly when a name matches, and then no earlier one does. */
  lemma {:induction false} FirstMatchIs(names: seq<string>, name: string)
    ensures match FirstMatch(names, name)
            case None => forall i :: 0 <= i < |names| ==> Fold(names[i]) != Fold(name)
            case Some(k) => k < |names| && Fold(names[k]) == Fold(name)
                            && forall i :: 0 <= i < k ==> Fold(names[i]) != Fold(name)
  {
    hide Fold;
    if names != [] {
      FirstMatchIs(names[1..], name);
      assert forall i :: 1 <= i < |names| ==> names[i] == names[1..][i - 1];
    }
  }

  lemma {:induction false} FieldIdxIsFirstMatch(names: seq<string>, name: string)
    ensures FieldIdx(Strings(names), name) == FirstMatch(names, name)
  {
    hide Fold;
    if names != [] {
      assert Strings(names)[1..] == Strings(names[1..]);
      FieldIdxIsFirstMatch(names[1..], name);
    }
  }

  /** The main theorem on responses: the client accepts every table, and reads back each cell by row and
      column and nothing outside; a name leads to its first column up to case. */
  lemma ResponseRoundTrip(h: Header, t: Table)
    requires Presentable(h, t)
    ensures var parsed := ParseResponse(Print(ResponseTree(h, t), false, 0));
            && parsed.Accepted?
            && parsed.value.kind == "response" && parsed.value.app == "SQLBUS-SERVER"
            && parsed.value.dbtype == h.dbtype && parsed.value.pid == h.pid && parsed.value.timestamp == h.timestamp
            && parsed.value.uuid == h.uuid && parsed.value.message == h.message
            && parsed.value.errorid == (if h.errorid < 0 then h.errorid + 0x1_0000_0000 else h.errorid)
            && parsed.value.fieldCount == |t.names| && parsed.value.rowCount == |t.rows|
            && (forall r, c :: GetRowValue(parsed.value.rowData, r, c)
                  == if 0 <= r < |t.rows| && 0 <= c < |t.names| then Some(t.rows[r][c]) else None)
            && (forall name :: FieldIdx(parsed.value.fieldData, name) == FirstMatch(t.names, name))
  {
    hide Print, ParseText, ResponseTree, ReadResponse, Printable, Nesting, Strings, Rows, FieldIdx, FirstMatch, Fold;
    ResponsePrintable(h, t);
    ResponseNesting(h, t);
    PrintThenParse(ResponseTree(h, t), false, false);
    ResponseReads(h, t);
    forall name ensures FieldIdx(Strings(t.names), name) == FirstMatch(t.names, name) {
      FieldIdxIsFirstMatch(t.names, name);
    }
  }

  // ---------------------------------------------------------------- the code as it runs

  /** The object under construction, and the return values collected on the way. */
  class Builder {
    var members: seq<Member>
    var valid: bool

    constructor ()
      ensures members == [] && valid
    {
      members, valid := [], true;
    }

    /** addStringToCJson. */
    method AddString(key: string, value: Text)
      modifies this
      ensures valid == (old(valid) && value.Some?)
      ensures members == if value.Some? then old(members) + [Member(key, Str(value.value))] else old(members)
    {
      if value.None? {
        valid := false;
        return;
      }
      members := members + [Member(key, Str(value.value))];
    }

    method Add(key: string, value: Json)
      modifies this
      ensures valid == old(valid) && members == old(members) + [Member(key, value)]
    {
      members := members + [Member(key, value)];
    }
  }

  /** The members of a request before the statement. */
  method StartRequest(d: Draft) returns (root: Builder)
    ensures fresh(root)
    ensures root.valid == (d.app.Some? && d.uuid.Some? && d.kind.Some? && d.channel.Some?)
    ensures root.valid ==>
              root.members ==
              [Member("app", Str(d.app.value)), Member("uuid", Str(d.uuid.value)), Member("pid", Num(d.pid)),
               Member("type", Str(d.kind.value)), Member("sync", if d.asynchronous then False else True),
               Member("rchannel", Str(d.channel.value)), Member("timestamp", Num(d.timestamp))]
  {
    root := new Builder();
    root.AddString("app", d.app);
    root.AddString("uuid", d.uuid);
    root.Add("pid", Num(d.pid));
    root.AddString("type", d.kind);
    root.Add("sync", if d.asynchronous then False else True);
    root.AddString("rchannel", d.channel);
    root.Add("timestamp", Num(d.timestamp));
  }

  /** The leaf for an update and an insert. */
  method BuildLeaf(d: Draft) returns (leaf: Builder)
    ensures fresh(leaf) && leaf.valid == (d.update.Some? && d.insert.Some?)
    ensures leaf.valid ==>
              Obj(leaf.members) == StatementTree(Upsert(d.update.value, d.insert.value))
  {
    leaf := new Builder();
    leaf.AddString("update", d.update);
    leaf.AddString("insert", d.insert);
  }

  /** marshallJson: nothing is sent when one of the additions failed. */
  method MarshalJson(d: Draft) returns (requestString: Text)
    ensures requestString == Marshal(d)
  {
    hide Print, StatementTree;
    var root := StartRequest(d);
    ghost var start := root.members;
    if d.statement.Some? {
      assert StatementTree(Single(d.statement.value)) == Str(d.statement.value) by { SingleTree(d.statement.value); }
      root.AddString("statement", d.statement);
    } else {
      var leaf := BuildLeaf(d);
      root.valid := root.valid && leaf.valid;
      root.Add("statement", Obj(leaf.members));
    }
    if !root.valid { return None; }
    assert root.members == start + [Member("statement", StatementTree(StatementOf(d)))];
    assert root.members == RequestTree(d).members;
    return Some(Print(Obj(root.members), false, 0));
  }

  lemma SingleTree(sql: string)
    ensures StatementTree(Single(sql)) == Str(sql)
  {
  }

  /** The request fields of the service handle. */
  class Handle {
    var uuid: Text
    var app: Text
    var pid: int
    var kind: Text
    var sync: bool
    var sendChannel: Text
    var timestamp: int
    var statement: Option<Statement>

    /** What sqlbus_free_request leaves behind. */
    predicate Cleared()
      reads this
    {
      uuid.None? && app.None? && kind.None? && sendChannel.None? && statement.None?
    }

    constructor ()
      ensures Cleared()
    {
      uuid, app, kind, sendChannel, statement := None, None, None, None, None;
      pid, sync, timestamp := 0, false, 0;
    }

    /** sqlbus_free_request. */
    method FreeRequest()
      modifies this
      ensures Cleared()
    {
      uuid, app, kind, sendChannel, statement := None, None, None, None, None;
    }

    /** sqlbus_parse_request: field after field, and no further than the first that is wrong. */
    method ParseFields(root: Json) returns (ok: bool)
      requires Cleared()
      modifies this
      ensures ok == ReadRequest(root).Some?
      ensures ok ==>
                && uuid.Some? && app.Some? && kind.Some? && statement.Some?
                && ReadRequest(root) == Some(Request(uuid.value, app.value, pid, kind.value, sync, sendChannel,
                                                     timestamp, statement.value))
    {
      hide Item, ReadStatement;
      uuid := TextOf(Item(root, "UUID"));
      if uuid.None? { return false; }
      app := TextOf(Item(root, "APP"));
      if app.None? { return false; }
      var leaf := Item(root, "PID");
      if !IsNumber(leaf) { return false; }
      pid := IntOf(leaf.value.n);
      kind := TextOf(Item(root, "TYPE"));
      if kind.None? { return false; }
      ok := ParseReplyTo(Item(root, "SYNC"), Item(root, "RCHANNEL"));
      if !ok { return false; }
      leaf := Item(root, "TIMESTAMP");
      if !IsNumber(leaf) { return false; }
      timestamp := leaf.value.n;
      ok := ParseStatement(Item(root, "STATEMENT"));
    }

    /** Whether an answer is expected, and where: a synchronous request needs a channel. */
    method ParseReplyTo(flag: Option<Json>, channel: Option<Json>) returns (ok: bool)
      requires sendChannel.None?
      modifies this`sync, this`sendChannel
      ensures ok == (flag.Some? && (flag.value.True? || flag.value.False?) && (IsText(channel) || flag.value.False?))
      ensures ok ==> sync == flag.value.True? && sendChannel == TextOf(channel)
    {
      if flag.None? || !(flag.value.True? || flag.value.False?) { return false; }
      sync := flag.value.True?;
      if IsText(channel) {
        sendChannel := Some(channel.value.s);
      } else if sync {
        return false;
      }
      return true;
    }

    method ParseStatement(leaf: Option<Json>) returns (ok: bool)
      requires statement.None?
      modifies this`statement
      ensures statement == ReadStatement(leaf) && ok == statement.Some?
    {
      hide Item;
      if IsText(leaf) {
        statement := Some(Single(leaf.value.s));
        return true;
      }
      if leaf.Some? && leaf.value.Obj? {
        var update, insert := Item(leaf.value, "UPDATE"), Item(leaf.value, "INSERT");
        if !IsText(update) || !IsText(insert) { return false; }
        statement := Some(Upsert(update.value.s, insert.value.s));
        return true;
      }
      NoItem(leaf);
      return false;
    }

    static lemma NoItem(leaf: Option<Json>)
      ensures leaf.Some? && !leaf.value.Obj? ==>
                Item(leaf.value, "UPDATE") == None && Item(leaf.value, "INSERT") == None
    {
    }
  }

  /** The members of a response before the table. */
  method StartResponse(h: Header) returns (root: Builder)
    ensures fresh(root)
    ensures root.members ==
              [Member("type", Str("response")), Member("app", Str("SQLBUS-SERVER")), Member("pid", Num(h.pid)),
               Member("dbtype", Str(h.dbtype)), Member("timestamp", Num(h.timestamp)), Member("uuid", Str(h.uuid)),
               Member("message", Str(h.message)), Member("errorid", Num(h.errorid))]
  {
    root := new Builder();
    root.Add("type", Str("response"));
    root.Add("app", Str("SQLBUS-SERVER"));
    root.Add("pid", Num(h.pid));
    root.Add("dbtype", Str(h.dbtype));
    root.Add("timestamp", Num(h.timestamp));
    root.Add("uuid", Str(h.uuid));
    root.Add("message", Str(h.message));
    root.Add("errorid", Num(h.errorid));
  }

  /** The two loops of sqlbus_generate_response over a result table, and the printed tree. */
  method GenerateResponse(h: Header, t: Table) returns (text: string)
    ensures text == Print(ResponseTree(h, t), false, 0)
  {
    hide Print, Strings, Rows;
    var root := StartResponse(h);
    root.Add("fields", Num(|t.names|));
    var field := StringArray(t.names);
    root.Add("field", Arr(field));
    root.Add("rows", Num(|t.rows|));
    var result := RowArray(t.rows);
    root.Add("result", Arr(result));
    assert root.members == ResponseTree(h, t).members;
    text := Print(Obj(root.members), false, 0);
  }

  method StringArray(ss: seq<string>) returns (items: seq<Json>)
    ensures items == Strings(ss)
  {
    items := [];
    var i := 0;
    while i < |ss|
      invariant i == |items| <= |ss| && forall k :: 0 <= k < i ==> items[k] == Str(ss[k])
    {
      items := items + [Str(ss[i])];
      i := i + 1;
    }
  }

  method RowArray(rows: seq<seq<string>>) returns (items: seq<Json>)
    ensures items == Rows(rows)
  {
    hide Strings;
    items := [];
    var i := 0;
    while i < |rows|
      invariant i == |items| <= |rows| && forall k :: 0 <= k < i ==> items[k] == Arr(Strings(rows[k]))
    {
      var row := StringArray(rows[i]);
      items := items + [Arr(row)];
      i := i + 1;
    }
  }

  /** unMarshallJson: fourteen results are collected and all of them must be plain successes. */
  method UnmarshalJson(root: Json) returns (ok: bool, response: Option<Response>)
    ensures response == ReadResponse(root) && ok == response.Some?
  {
    hide Item;
    var kind, app, dbtype := Item(root, "type"), Item(root, "app"), Item(root, "dbtype");
    var uuid, message := Item(root, "uuid"), Item(root, "message");
    var pid, timestamp, errorid := Item(root, "pid"), Item(root, "timestamp"), Item(root, "errorid");
    var fields, rows := Item(root, "fields"), Item(root, "rows");
    var field, result := Item(root, "field"), Item(root, "result");
    var fieldSize := IsArray(field) && IsNumber(fields) && |field.value.items| == IntOf(fields.value.n);
    var rowSize := IsArray(result) && IsNumber(rows) && |result.value.items| == IntOf(rows.value.n);
    var results := [Info(IsText(kind)), Info(IsText(app)), Info(IsText(dbtype)), Info(IsText(uuid)),
                    Info(IsText(message)), Info(IsNumber(pid)), Info(IsNumber(timestamp)), Info(IsNumber(errorid)),
                    Must(IsNumber(fields)), Must(IsNumber(rows)), Must(IsArray(field)), Must(IsArray(result)),
                    Must(fieldSize), Must(rowSize)];
    ok := AllSucceeded(results);
    if !ok {
      var k :| 0 <= k < |results| && results[k] != 0;
      return false, None;
    }
    assert results[0] == 0 && results[1] == 0 && results[2] == 0 && results[3] == 0 && results[4] == 0;
    assert results[5] == 0 && results[6] == 0 && results[7] == 0 && results[12] == 0 && results[13] == 0;
    response := Some(Response(kind.value.s, app.value.s, dbtype.value.s, uuid.value.s, message.value.s,
                              CountOf(pid), CountOf(timestamp), CountOf(errorid), CountOf(fields), CountOf(rows),
                              field.value.items, result.value.items));
  }

  /** A lookup that may be ignored: success, or success with information. */
  function Info(found: bool): int {
    if found then 0 else 1
  }

  function Must(found: bool): int {
    if found then 0 else -1
  }

  /** checkReturnValueArrayIsValid, whose test lets only the value 0 pass. */
  method AllSucceeded(results: seq<int>) returns (ok: bool)
    ensures ok <==> forall i :: 0 <= i < |results| ==> results[i] == 0
  {
    var i := 0;
    while i < |results|
      invariant i <= |results| && forall k :: 0 <= k < i ==> results[k] == 0
    {
      if results[i] != 0 { return false; }
      i := i + 1;
    }
    return true;
  }
}
