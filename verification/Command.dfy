/** Formatting commands: the byte count computed beforehand, the bytes written, and how a format
    string is cut into arguments. */
module Command {
  import opened Basics
  import opened Decimal
  import opened Resp
  import opened RespEncoding

  function BulkReplies(argv: seq<Bytes>): seq<Reply> {
    if argv == [] then [] else [Str(argv[0])] + BulkReplies(argv[1..])
  }

  /** A command is the encoding of an array of bulk strings. */
  function CommandReply(argv: seq<Bytes>): Reply {
    Arr(|argv|, BulkReplies(argv))
  }

  function BulkBytes(argv: seq<Bytes>): Bytes {
    if argv == [] then [] else Bulk(argv[0]) + BulkBytes(argv[1..])
  }

  lemma {:induction false} BulkBytesEncode(argv: seq<Bytes>)
    ensures |BulkReplies(argv)| == |argv| && EncodeAll(BulkReplies(argv)) == BulkBytes(argv)
  {
    if argv != [] {
      BulkBytesEncode(argv[1..]);
      assert BulkReplies(argv)[1..] == BulkReplies(argv[1..]);
    }
  }

  lemma CommandBytes(argv: seq<Bytes>)
    ensures Encode(CommandReply(argv)) == Line('*', ToDecimal(|argv|)) + BulkBytes(argv)
  {
    BulkBytesEncode(argv);
  }

  lemma {:induction false} BulkBytesSnoc(argv: seq<Bytes>, j: nat)
    requires j < |argv|
    ensures BulkBytes(argv[..j + 1]) == BulkBytes(argv[..j]) + Bulk(argv[j])
    decreases argv
  {
    if j == 0 {
      assert argv[..1][1..] == [];
    } else {
      BulkBytesSnoc(argv[1..], j - 1);
      assert argv[..j + 1][1..] == argv[1..][..j];
      assert argv[..j][1..] == argv[1..][..j - 1];
    }
  }

  lemma BulkBytesFrom(argv: seq<Bytes>, j: nat)
    requires j < |argv|
    ensures BulkBytes(argv[j..]) == Bulk(argv[j]) + BulkBytes(argv[j + 1..])
  {
    assert argv[j..][1..] == argv[j + 1..];
  }

  lemma NoBulkBytes()
    ensures BulkBytes([]) == []
  {
  }

  lemma {:induction false} CommandIsEncodable(argv: seq<Bytes>)
    requires forall a :: a in argv ==> |a| < TWO_TO_THE_63
    ensures |BulkReplies(argv)| == |argv| && AllEncodable(BulkReplies(argv)) && MaxDepth(BulkReplies(argv)) == 0
  {
    if argv != [] {
      CommandIsEncodable(argv[1..]);
      assert BulkReplies(argv)[1..] == BulkReplies(argv[1..]);
    }
  }

  /** The reader recovers exactly the arguments, whatever bytes they hold. */
  lemma CommandRoundTrip(argv: seq<Bytes>, tail: Bytes)
    requires |argv| < TWO_TO_THE_31 && forall a :: a in argv ==> |a| < TWO_TO_THE_63
    ensures NextReply([], Encode(CommandReply(argv)) + tail) == Emit(CommandReply(argv), tail)
  {
    hide Decode, Encode, NextReply;
    CommandIsEncodable(argv);
    DecodeEncode(CommandReply(argv), tail, 0);
    MachineRefinesDecoder(Encode(CommandReply(argv)) + tail);
  }

  method BulkLen(len: nat) returns (size: nat)
    ensures forall s: Bytes :: |s| == len ==> size == |Bulk(s)|
  {
    var digits := CountDigits(len);
    size := 1 + digits + 2 + len + 2;
  }

  method TotalLength(argv: seq<Bytes>) returns (totlen: nat)
    ensures totlen == |Encode(CommandReply(argv))|
  {
    var digits := CountDigits(|argv|);
    totlen := 1 + digits + 2;
    var j := 0;
    while j < |argv|
      invariant 0 <= j <= |argv|
      invariant totlen == |Line('*', ToDecimal(|argv|))| + |BulkBytes(argv[..j])|
    {
      BulkBytesSnoc(argv, j);
      var size := BulkLen(|argv[j]|);
      totlen := totlen + size;
      j := j + 1;
    }
    assert argv[..j] == argv;
    CommandBytes(argv);
  }

  /** memcpy and sprintf: writes s at pos. */
  method Write(cmd: array<char>, pos: nat, s: Bytes) returns (next: nat)
    requires pos + |s| <= cmd.Length
    modifies cmd
    ensures next == pos + |s|
    ensures cmd[..next] == old(cmd[..pos]) + s
  {
    forall i | 0 <= i < |s| {
      cmd[pos + i] := s[i];
    }
    next := pos + |s|;
  }

  /** redisFormatCommandArgv: the buffer is exactly as large as the command and its terminator. */
  method FormatCommandArgv(argv: seq<Bytes>) returns (cmd: array<char>, totlen: nat)
    ensures totlen == |Encode(CommandReply(argv))| && cmd.Length == totlen + 1
    ensures cmd[..totlen] == Encode(CommandReply(argv)) && cmd[totlen] == '\0'
    ensures fresh(cmd)
  {
    hide Bulk, Line, ToDecimal, Encode, BulkBytes;
    totlen := TotalLength(argv);
    cmd := new char[totlen + 1];
    CommandBytes(argv);
    NoBulkBytes();
    assert argv[..0] == [] && argv[0..] == argv;
    var pos := Write(cmd, 0, Line('*', ToDecimal(|argv|)));
    ghost var header := Line('*', ToDecimal(|argv|));
    var j := 0;
    while j < |argv|
      invariant 0 <= j <= |argv|
      invariant pos == |header| + |BulkBytes(argv[..j])| && pos + |BulkBytes(argv[j..])| == totlen
      invariant cmd[..pos] == header + BulkBytes(argv[..j])
    {
      BulkBytesSnoc(argv, j);
      BulkBytesFrom(argv, j);
      pos := Write(cmd, pos, Bulk(argv[j]));
      j := j + 1;
    }
    assert argv[..j] == argv && argv[j..] == [];
    assert pos == totlen;
    cmd[pos] := '\0';
  }

  // ---------------------------------------------------------------- format strings

  /** An argument behind the format: bytes, with their length for %b, or an int. */
  datatype Value = Data(text: Bytes) | Whole(n: int)

  /** What one step of the format contributes: a separating space, or text of the current argument. */
  datatype Piece = Space | Text(text: Bytes)

  /** What a format asks for at its head: how many of its characters that covers, and whether it
      takes an argument. */
  datatype Directive = Plain(c: char) | Percent | Take(conversion: char) | Unknown

  function Head(format: Bytes): (d: Directive)
    requires format != []
    ensures Width(d) <= |format|
  {
    if format[0] != '%' || |format| == 1 then Plain(format[0])
    else if format[1] == '%' then Percent
    else if format[1] == 's' || format[1] == 'b' || format[1] == 'd' then Take(format[1])
    else Unknown
  }

  function Width(d: Directive): nat {
    match d
    case Plain(_) => 1
    case Percent => 2
    case Take(_) => 2
    case Unknown => 0
  }

  predicate Supported(format: Bytes) {
    format == [] || (!Head(format).Unknown? && Supported(format[Width(Head(format))..]))
  }

  /** The number of arguments taken before the end or the first unknown conversion. */
  function Demand(format: Bytes): nat {
    if format == [] || Head(format).Unknown? then 0
    else Demand(format[Width(Head(format))..]) + if Head(format).Take? then 1 else 0
  }

  /** Whether a conversion is for that kind of argument. */
  predicate Accepts(conversion: char, v: Value) {
    if conversion == 'd' then v.Whole? else v.Data?
  }

  /** The arguments are of the kinds that the conversions take. */
  predicate Typed(format: Bytes, args: seq<Value>)
    requires Demand(format) <= |args|
  {
    if format == [] || Head(format).Unknown? then true
    else
      var d := Head(format);
      (d.Take? ==> Accepts(d.conversion, args[0]))
      && Typed(format[Width(d)..], if d.Take? then args[1..] else args)
  }

  /** What a conversion prints; nothing is said of an argument of the wrong kind. */
  function Shown(conversion: char, v: Value): Bytes {
    if v.Whole? then SignedDecimal(v.n) else if conversion == 's' then CString(v.text) else v.text
  }

  function Content(d: Directive, args: seq<Value>): Piece
    requires d.Take? ==> args != []
  {
    match d
    case Plain(c) => if c == ' ' then Space else Text([c])
    case Percent => Text("%")
    case Take(conversion) => Text(Shown(conversion, args[0]))
    case Unknown => Text([])
  }

  /** The pieces of a format with its arguments filled in. */
  function Pieces(format: Bytes, args: seq<Value>): seq<Piece>
    requires Supported(format) && Demand(format) <= |args|
  {
    if format == [] then [] else
      var d := Head(format);
      [Content(d, args)] + Pieces(format[Width(d)..], if d.Take? then args[1..] else args)
  }

  predicate NoSpace(pieces: seq<Piece>) {
    forall i :: 0 <= i < |pieces| ==> pieces[i].Text?
  }

  function Join(pieces: seq<Piece>): Bytes
    requires NoSpace(pieces)
  {
    if pieces == [] then [] else pieces[0].text + Join(pieces[1..])
  }

  /** The arguments: the joined runs of text between separating spaces; empty runs do not count. */
  function Words(pieces: seq<Piece>): seq<Bytes> {
    Group([], pieces)
  }

  function Group(run: seq<Piece>, pieces: seq<Piece>): seq<Bytes>
    requires NoSpace(run)
    decreases |pieces|
  {
    var word := if run == [] then [] else [Join(run)];
    if pieces == [] then word
    else if pieces[0].Space? then word + Group([], pieces[1..])
    else Group(run + [pieces[0]], pieces[1..])
  }

  /** Text without a separating space is one argument, even when it is empty text. */
  lemma {:induction false} TextIsOneWord(run: seq<Piece>, pieces: seq<Piece>)
    requires NoSpace(run) && NoSpace(pieces)
    ensures Group(run, pieces) == if run + pieces == [] then [] else [Join(run + pieces)]
    decreases |pieces|
  {
    if pieces == [] {
      assert run + pieces == run;
    } else {
      assert run + pieces == run + [pieces[0]] + pieces[1..];
      TextIsOneWord(run + [pieces[0]], pieces[1..]);
    }
  }

  /** Only a separating space splits. */
  lemma {:induction false} SpaceSplits(run: seq<Piece>, before: seq<Piece>, after: seq<Piece>)
    requires NoSpace(run)
    ensures Group(run, before + [Space] + after) == Group(run, before) + Words(after)
    decreases |before|
  {
    var all := before + [Space] + after;
    if before == [] {
      assert all[0].Space? && all[1..] == after;
    } else {
      assert all[1..] == before[1..] + [Space] + after;
      if before[0].Space? {
        SpaceSplits([], before[1..], after);
      } else {
        SpaceSplits(run + [before[0]], before[1..], after);
      }
    }
  }

  lemma {:induction false} JoinSnoc(run: seq<Piece>, text: Bytes)
    requires NoSpace(run)
    ensures Join(run + [Text(text)]) == Join(run) + text
  {
    var all := run + [Text(text)];
    if run == [] {
      assert all[1..] == [];
    } else {
      JoinSnoc(run[1..], text);
      assert all[1..] == run[1..] + [Text(text)];
    }
  }

  lemma GroupText(run: seq<Piece>, text: Bytes, pieces: seq<Piece>)
    requires NoSpace(run)
    ensures Group(run, [Text(text)] + pieces) == Group(run + [Text(text)], pieces)
    ensures Join(run + [Text(text)]) == Join(run) + text
  {
    assert ([Text(text)] + pieces)[1..] == pieces;
    JoinSnoc(run, text);
  }

  lemma GroupSpace(run: seq<Piece>, pieces: seq<Piece>)
    requires NoSpace(run)
    ensures Group(run, [Space] + pieces) == (if run == [] then [] else [Join(run)]) + Group([], pieces)
  {
    assert ([Space] + pieces)[1..] == pieces;
  }

  /** Unsupported stands for a conversion other than those above: a printf conversion of the source, or an
      error. */
  datatype Formatted = Arguments(argv: seq<Bytes>) | Unsupported

  /** One directive of the format. */
  lemma OneDirective(format: Bytes, c: nat, args: seq<Value>, next: nat)
    requires c < |format| && next <= |args| && Demand(format[c..]) <= |args| - next
    ensures var d := Head(format[c..]);
            && c + Width(d) <= |format|
            && (d.Unknown? ==> !Supported(format[c..]))
            && (d.Take? ==> next < |args|)
    ensures var d := Head(format[c..]);
            !d.Unknown? ==>
              var after := if d.Take? then next + 1 else next;
              var rest := format[c + Width(d)..];
              && Supported(format[c..]) == Supported(rest)
              && Demand(rest) <= |args| - after
              && (Supported(rest) ==>
                    Pieces(format[c..], args[next..]) == [Content(d, args[next..])] + Pieces(rest, args[after..]))
  {
    hide Content;
    var d := Head(format[c..]);
    assert format[c..][Width(d)..] == format[c + Width(d)..];
    if d.Take? {
      assert args[next..][1..] == args[next + 1..];
    }
  }

  /** What the loop has so far: finished arguments, and the pieces of the one it is working on. */
  ghost predicate Formatting(format: Bytes, c: nat, args: seq<Value>, next: nat, argv: seq<Bytes>, run: seq<Piece>)
    requires c <= |format| && next <= |args| && Demand(format) <= |args|
  {
    && NoSpace(run)
    && Supported(format) == Supported(format[c..]) && Demand(format[c..]) <= |args| - next
    && (Supported(format) ==>
          Words(Pieces(format, args)) == argv + Group(run, Pieces(format[c..], args[next..])))
  }

  lemma AtSpace(format: Bytes, c: nat, args: seq<Value>, next: nat, argv: seq<Bytes>, run: seq<Piece>)
    requires c < |format| && next <= |args| && Demand(format) <= |args| && Formatting(format, c, args, next, argv, run)
    requires Head(format[c..]) == Plain(' ')
    ensures Formatting(format, c + 1, args, next, if run == [] then argv else argv + [Join(run)], [])
  {
    hide Group, Join, Pieces, Supported, Demand, Words;
    OneDirective(format, c, args, next);
    if Supported(format) {
      GroupSpace(run, Pieces(format[c + 1..], args[next..]));
    }
  }

  lemma AtText(format: Bytes, c: nat, args: seq<Value>, next: nat, argv: seq<Bytes>, run: seq<Piece>)
    requires c < |format| && next <= |args| && Demand(format) <= |args| && Formatting(format, c, args, next, argv, run)
    requires !Head(format[c..]).Unknown? && Head(format[c..]) != Plain(' ')
    requires Head(format[c..]).Take? ==> next < |args|
    ensures var d := Head(format[c..]);
            var piece := Content(d, args[next..]);
            && c + Width(d) <= |format| && piece.Text?
            && Formatting(format, c + Width(d), args, if d.Take? then next + 1 else next, argv, run + [piece])
            && Join(run + [piece]) == Join(run) + piece.text
  {
    hide Group, Join, Pieces, Supported, Demand, Words;
    var d := Head(format[c..]);
    var piece := Content(d, args[next..]);
    OneDirective(format, c, args, next);
    GroupText(run, piece.text, if Supported(format) then
                Pieces(format[c + Width(d)..], args[if d.Take? then next + 1 else next..]) else []);
  }

  /** The loop of redisvFormatCommand up to the finished argument vector. */
  method FormatArguments(format: Bytes, args: seq<Value>) returns (r: Formatted)
    requires Demand(format) <= |args| && Typed(format, args)
    ensures r == if Supported(format) then Arguments(Words(Pieces(format, args))) else Unsupported
  {
    hide Group, Join, Pieces, Supported, Demand, Words, Formatting, NoSpace, Head, Content;
    var argv, curarg, touched := [], [], false;
    var c: nat, next: nat := 0, 0;
    ghost var run: seq<Piece> := [];
    StartFormatting(format, args);
    while c < |format|
      invariant c <= |format| && next <= |args| && Formatting(format, c, args, next, argv, run)
      invariant NoSpace(run) && curarg == Join(run) && touched == (run != [])
      decreases |format| - c
    {
      Remaining(format, c, args, next, argv, run);
      OneDirective(format, c, args, next);
      var d := Head(format[c..]);
      if d == Unknown { return Unsupported; }
      if d == Plain(' ') {
        AtSpace(format, c, args, next, argv, run);
        if touched {
          argv := argv + [curarg];
        }
        curarg, touched, run := [], false, [];
        c := c + 1;
        EmptyJoin();
      } else {
        AtText(format, c, args, next, argv, run);
        var piece := Content(d, args[next..]);
        curarg, touched, run := curarg + piece.text, true, run + [piece];
        c := c + Width(d);
        if d.Take? { next := next + 1; }
        Remaining(format, c, args, next, argv, run);
      }
    }
    if touched {
      argv := argv + [curarg];
    }
    Finished(format, args, next, if touched then argv[..|argv| - 1] else argv, run);
    r := Arguments(argv);
  }

  lemma StartFormatting(format: Bytes, args: seq<Value>)
    requires Demand(format) <= |args|
    ensures Formatting(format, 0, args, 0, [], []) && NoSpace([]) && Join([]) == []
  {
    hide Group, Pieces, Supported, Demand;
    assert format[0..] == format && args[0..] == args;
  }

  lemma Remaining(format: Bytes, c: nat, args: seq<Value>, next: nat, argv: seq<Bytes>, run: seq<Piece>)
    requires c <= |format| && next <= |args| && Demand(format) <= |args| && Formatting(format, c, args, next, argv, run)
    ensures NoSpace(run) && Supported(format) == Supported(format[c..]) && Demand(format[c..]) <= |args| - next
  {
  }

  lemma Finished(format: Bytes, args: seq<Value>, next: nat, argv: seq<Bytes>, run: seq<Piece>)
    requires next <= |args| && Demand(format) <= |args| && Formatting(format, |format|, args, next, argv, run)
    ensures NoSpace(run) && Supported(format)
    ensures Words(Pieces(format, args)) == argv + if run == [] then [] else [Join(run)]
  {
    hide Words, Join, Demand;
    assert format[|format|..] == [];
    EmptyFormat();
    assert Pieces([], args[next..]) == [];
    assert Group(run, []) == if run == [] then [] else [Join(run)];
  }

  /** redisvFormatCommand: the arguments of the format, written as one command. */
  method FormatCommand(format: Bytes, args: seq<Value>) returns (cmd: array?<char>, totlen: nat)
    requires Demand(format) <= |args| && Typed(format, args)
    ensures cmd != null <==> Supported(format)
    ensures Supported(format) ==>
              var bytes := Encode(CommandReply(Words(Pieces(format, args))));
              totlen == |bytes| && cmd.Length == totlen + 1 && cmd[..totlen] == bytes && cmd[totlen] == '\0'
  {
    hide Encode, Words, Pieces, Supported, Demand, CommandReply;
    var formatted := FormatArguments(format, args);
    if formatted.Unsupported? { return null, 0; }
    cmd, totlen := FormatCommandArgv(formatted.argv);
  }

  lemma EmptyJoin()
    ensures Join([]) == [] && NoSpace([])
  {
  }

  // ---------------------------------------------------------------- what a format says

  /** The parts of a written format: letters that stand for themselves, a doubled percent sign, and a
      conversion with its argument. */
  datatype Field = Letters(text: Bytes) | PercentSign | Conversion(letter: char, arg: Value)

  ghost predicate Proper(f: Field) {
    match f
    case Letters(text) => text != [] && ' ' !in text && '%' !in text
    case PercentSign => true
    case Conversion(letter, arg) => if arg.Whole? then letter == 'd' else letter == 's' || letter == 'b'
  }

  function Spelled(f: Field): Bytes {
    match f
    case Letters(text) => text
    case PercentSign => "%%"
    case Conversion(letter, _) => ['%', letter]
  }

  function Printed(f: Field): Bytes {
    match f
    case Letters(text) => text
    case PercentSign => "%"
    case Conversion(_, Whole(n)) => SignedDecimal(n)
    case Conversion(letter, Data(text)) => if letter == 'b' then text else CString(text)
  }

  function Taken(f: Field): seq<Value> {
    if f.Conversion? then [f.arg] else []
  }

  ghost predicate ProperWord(word: seq<Field>) {
    forall i :: 0 <= i < |word| ==> Proper(word[i])
  }

  function SpelledWord(word: seq<Field>): Bytes {
    if word == [] then [] else Spelled(word[0]) + SpelledWord(word[1..])
  }

  function PrintedWord(word: seq<Field>): Bytes {
    if word == [] then [] else Printed(word[0]) + PrintedWord(word[1..])
  }

  function TakenWord(word: seq<Field>): seq<Value> {
    if word == [] then [] else Taken(word[0]) + TakenWord(word[1..])
  }

  /** The words with one space between them. */
  function SpelledWords(words: seq<seq<Field>>): Bytes {
    if words == [] then []
    else if |words| == 1 then SpelledWord(words[0])
    else SpelledWord(words[0]) + " " + SpelledWords(words[1..])
  }

  function PrintedWords(words: seq<seq<Field>>): seq<Bytes> {
    if words == [] then [] else [PrintedWord(words[0])] + PrintedWords(words[1..])
  }

  function TakenWords(words: seq<seq<Field>>): seq<Value> {
    if words == [] then [] else TakenWord(words[0]) + TakenWords(words[1..])
  }

  /** The format can be filled in with exactly these arguments, and gives these pieces. */
  ghost predicate Gives(format: Bytes, args: seq<Value>, pieces: seq<Piece>) {
    && Supported(format) && Demand(format) == |args| && Typed(format, args)
    && Pieces(format, args) == pieces
  }

  lemma CharacterStep(c: char, rest: Bytes, args: seq<Value>, pieces: seq<Piece>)
    requires c != '%' && Gives(rest, args, pieces)
    ensures Gives([c] + rest, args, [if c == ' ' then Space else Text([c])] + pieces)
  {
    assert ([c] + rest)[1..] == rest;
  }

  lemma PercentStep(rest: Bytes, args: seq<Value>, pieces: seq<Piece>)
    requires Gives(rest, args, pieces)
    ensures Gives("%%" + rest, args, [Text("%")] + pieces)
  {
    assert ("%%" + rest)[2..] == rest;
  }

  lemma ConversionStep(letter: char, arg: Value, rest: Bytes, args: seq<Value>, pieces: seq<Piece>)
    requires Proper(Conversion(letter, arg)) && Gives(rest, args, pieces)
    ensures Gives(['%', letter] + rest, [arg] + args, [Text(Printed(Conversion(letter, arg)))] + pieces)
  {
    var format := ['%', letter] + rest;
    assert format[2..] == rest && ([arg] + args)[1..] == args;
    assert Head(format) == Take(letter);
  }

  function Singles(text: Bytes): seq<Piece> {
    if text == [] then [] else [Text([text[0]])] + Singles(text[1..])
  }

  function FieldPieces(f: Field): seq<Piece> {
    if f.Letters? then Singles(f.text) else [Text(Printed(f))]
  }

  function WordPieces(word: seq<Field>): seq<Piece> {
    if word == [] then [] else FieldPieces(word[0]) + WordPieces(word[1..])
  }

  lemma {:induction false} LettersStep(text: Bytes, rest: Bytes, args: seq<Value>, pieces: seq<Piece>)
    requires ' ' !in text && '%' !in text && Gives(rest, args, pieces)
    ensures Gives(text + rest, args, Singles(text) + pieces)
  {
    hide Gives;
    if text == [] {
      assert text + rest == rest && Singles(text) + pieces == pieces;
    } else {
      assert text[0] in text;
      LettersStep(text[1..], rest, args, pieces);
      CharacterStep(text[0], text[1..] + rest, args, Singles(text[1..]) + pieces);
      assert text + rest == [text[0]] + (text[1..] + rest);
      assert Singles(text) + pieces == [Text([text[0]])] + (Singles(text[1..]) + pieces);
    }
  }

  lemma FieldStep(f: Field, rest: Bytes, args: seq<Value>, pieces: seq<Piece>)
    requires Proper(f) && Gives(rest, args, pieces)
    ensures Gives(Spelled(f) + rest, Taken(f) + args, FieldPieces(f) + pieces)
  {
    hide Gives;
    match f
    case Letters(text) =>
      LettersStep(text, rest, args, pieces);
      assert Taken(f) + args == args;
    case PercentSign =>
      PercentStep(rest, args, pieces);
      assert Taken(f) + args == args;
    case Conversion(letter, arg) => ConversionStep(letter, arg, rest, args, pieces);
  }

  lemma {:induction false} WordStep(word: seq<Field>, rest: Bytes, args: seq<Value>, pieces: seq<Piece>)
    requires ProperWord(word) && Gives(rest, args, pieces)
    ensures Gives(SpelledWord(word) + rest, TakenWord(word) + args, WordPieces(word) + pieces)
  {
    hide Gives, Spelled, Taken, FieldPieces;
    if word == [] {
      assert SpelledWord(word) + rest == rest && TakenWord(word) + args == args;
      assert WordPieces(word) + pieces == pieces;
    } else {
      var f, others := word[0], word[1..];
      WordStep(others, rest, args, pieces);
      FieldStep(f, SpelledWord(others) + rest, TakenWord(others) + args, WordPieces(others) + pieces);
      assert SpelledWord(word) + rest == Spelled(f) + (SpelledWord(others) + rest);
      assert TakenWord(word) + args == Taken(f) + (TakenWord(others) + args);
      assert WordPieces(word) + pieces == FieldPieces(f) + (WordPieces(others) + pieces);
    }
  }

  lemma {:induction false} SinglesJoin(text: Bytes)
    ensures NoSpace(Singles(text)) && Join(Singles(text)) == text && |Singles(text)| == |text|
  {
    if text != [] {
      SinglesJoin(text[1..]);
      assert Singles(text)[1..] == Singles(text[1..]);
    }
  }

  lemma {:induction false} JoinAppend(a: seq<Piece>, b: seq<Piece>)
    requires NoSpace(a) && NoSpace(b)
    ensures NoSpace(a + b) && Join(a + b) == Join(a) + Join(b)
  {
    if a == [] {
      assert a + b == b;
    } else {
      JoinAppend(a[1..], b);
      assert (a + b)[1..] == a[1..] + b;
    }
  }

  lemma {:induction false} WordJoins(word: seq<Field>)
    requires ProperWord(word)
    ensures NoSpace(WordPieces(word)) && Join(WordPieces(word)) == PrintedWord(word)
    ensures word != [] ==> WordPieces(word) != []
  {
    if word != [] {
      WordJoins(word[1..]);
      var f := word[0];
      if f.Letters? {
        SinglesJoin(f.text);
      } else {
        assert FieldPieces(f)[1..] == [];
      }
      JoinAppend(FieldPieces(f), WordPieces(word[1..]));
    }
  }

  /** A format means what it shows: words separated by single spaces, letters and percent signs as they
      stand, conversions replaced by their arguments, are the arguments of the command, one for one. */
  lemma {:induction false} FormatIsItsWords(words: seq<seq<Field>>)
    requires forall i :: 0 <= i < |words| ==> words[i] != [] && ProperWord(words[i])
    ensures Supported(SpelledWords(words)) && Demand(SpelledWords(words)) == |TakenWords(words)|
    ensures Typed(SpelledWords(words), TakenWords(words))
    ensures Words(Pieces(SpelledWords(words), TakenWords(words))) == PrintedWords(words)
  {
    hide SpelledWord, PrintedWord, TakenWord, WordPieces, NoSpace, Join, ProperWord;
    EmptyFormat();
    if words == [] {
    } else {
      var word, others := words[0], words[1..];
      WordJoins(word);
      if others == [] {
        WordStep(word, [], [], []);
        assert SpelledWord(word) + [] == SpelledWords(words) && TakenWord(word) + [] == TakenWords(words);
        OneWord(WordPieces(word));
      } else {
        FormatIsItsWords(others);
        var rest, args := SpelledWords(others), TakenWords(others);
        var pieces := Pieces(rest, args);
        CharacterStep(' ', rest, args, pieces);
        WordStep(word, " " + rest, args, [Space] + pieces);
        assert SpelledWord(word) + (" " + rest) == SpelledWords(words);
        WordBeforeSpace(WordPieces(word), pieces);
      }
    }
  }

  lemma OneWord(pieces: seq<Piece>)
    requires NoSpace(pieces) && pieces != []
    ensures Words(pieces + []) == [Join(pieces)]
  {
    TextIsOneWord([], pieces);
    assert [] + pieces == pieces && pieces + [] == pieces;
  }

  lemma WordBeforeSpace(word: seq<Piece>, pieces: seq<Piece>)
    requires NoSpace(word) && word != []
    ensures Words(word + ([Space] + pieces)) == [Join(word)] + Words(pieces)
  {
    SpaceSplits([], word, pieces);
    TextIsOneWord([], word);
    assert [] + word == word && word + ([Space] + pieces) == word + [Space] + pieces;
  }

  lemma SingleField(f: Field)
    ensures SpelledWord([f]) == Spelled(f) && TakenWord([f]) == Taken(f) && PrintedWord([f]) == Printed(f)
    ensures Proper(f) ==> ProperWord([f])
  {
    hide Spelled, Taken, Printed, Proper;
    assert [f][1..] == [];
    assert Spelled(f) + [] == Spelled(f) && Taken(f) + [] == Taken(f) && Printed(f) + [] == Printed(f);
  }

  lemma SingleWord(f: Field)
    ensures SpelledWords([[f]]) == Spelled(f) && TakenWords([[f]]) == Taken(f) && PrintedWords([[f]]) == [Printed(f)]
  {
    hide Spelled, Taken, Printed, SpelledWord, TakenWord, PrintedWord;
    SingleField(f);
    assert [[f]][1..] == [];
    assert Taken(f) + [] == Taken(f);
  }

  lemma OneMoreWord(f: Field, others: seq<seq<Field>>)
    requires others != []
    ensures SpelledWords([[f]] + others) == Spelled(f) + " " + SpelledWords(others)
    ensures TakenWords([[f]] + others) == Taken(f) + TakenWords(others)
    ensures PrintedWords([[f]] + others) == [Printed(f)] + PrintedWords(others)
  {
    hide Spelled, Taken, Printed, SpelledWord, TakenWord, PrintedWord;
    SingleField(f);
    assert ([[f]] + others)[1..] == others;
  }

  /** Text without a space and a percent sign is one argument, equal to itself. */
  lemma LettersAreOneWord(text: Bytes)
    requires text != [] && ' ' !in text && '%' !in text
    ensures Supported(text) && Demand(text) == 0 && Typed(text, [])
    ensures Words(Pieces(text, [])) == [text]
  {
    hide Supported, Demand, Typed, Pieces, Words, SpelledWords, TakenWords, PrintedWords, ProperWord;
    SingleField(Letters(text));
    FormatIsItsWords([[Letters(text)]]);
    SingleWord(Letters(text));
  }

  lemma TwoWords(a: Field, b: Field)
    requires Proper(a) && Proper(b)
    ensures var format, args := Spelled(a) + " " + Spelled(b), Taken(a) + Taken(b);
            && Supported(format) && Demand(format) == |args| && Typed(format, args)
            && Words(Pieces(format, args)) == [Printed(a), Printed(b)]
  {
    hide Supported, Demand, Typed, Pieces, Words, Spelled, Taken, Printed, Proper, ProperWord;
    hide SpelledWords, TakenWords, PrintedWords;
    SingleField(a);
    SingleField(b);
    FormatIsItsWords([[a]] + [[b]]);
    OneMoreWord(a, [[b]]);
    SingleWord(b);
  }

  lemma ThreeWords(a: Field, b: Field, c: Field)
    requires Proper(a) && Proper(b) && Proper(c)
    ensures var format, args := Spelled(a) + " " + (Spelled(b) + " " + Spelled(c)), Taken(a) + (Taken(b) + Taken(c));
            && Supported(format) && Demand(format) == |args| && Typed(format, args)
            && Words(Pieces(format, args)) == [Printed(a), Printed(b), Printed(c)]
  {
    hide Supported, Demand, Typed, Pieces, Words, Spelled, Taken, Printed, Proper, ProperWord;
    hide SpelledWords, TakenWords, PrintedWords;
    SingleField(a);
    SingleField(b);
    SingleField(c);
    FormatIsItsWords([[a]] + ([[b]] + [[c]]));
    OneMoreWord(a, [[b]] + [[c]]);
    OneMoreWord(b, [[c]]);
    SingleWord(c);
  }

  /** A format of three conversions with spaces between them gives three arguments, whatever is printed. */
  lemma ThreeConversions(x: char, y: char, z: char, a: Value, b: Value, c: Value)
    requires x in {'s', 'b', 'd'} && y in {'s', 'b', 'd'} && z in {'s', 'b', 'd'}
    requires Accepts(x, a) && Accepts(y, b) && Accepts(z, c)
    ensures var format := ['%', x] + " " + (['%', y] + " " + ['%', z]);
            && Supported(format) && Demand(format) == 3 && Typed(format, [a, b, c])
            && Words(Pieces(format, [a, b, c])) == [Shown(x, a), Shown(y, b), Shown(z, c)]
  {
    hide Supported, Demand, Typed, Pieces, Words;
    ThreeWords(Conversion(x, a), Conversion(y, b), Conversion(z, c));
    assert [a] + ([b] + [c]) == [a, b, c];
  }

  /** The format of a put-back and of an answer. */
  lemma ThreeArguments(command: Bytes, key: Bytes, value: Bytes)
    ensures var args := [Data(command), Data(key), Data(value)];
            && Supported("%s %s %s") && Demand("%s %s %s") == 3 && Typed("%s %s %s", args)
            && Words(Pieces("%s %s %s", args)) == [CString(command), CString(key), CString(value)]
  {
    hide Supported, Demand, Typed, Pieces, Words;
    ThreeConversions('s', 's', 's', Data(command), Data(key), Data(value));
    assert ['%', 's'] + " " + (['%', 's'] + " " + ['%', 's']) == "%s %s %s";
  }

  /** The format of a pop: its third argument is the time to wait, in decimal. */
  lemma PopArguments(command: Bytes, key: Bytes, timeout: int)
    ensures var args := [Data(command), Data(key), Whole(timeout)];
            && Supported("%s %s %d") && Demand("%s %s %d") == 3 && Typed("%s %s %d", args)
            && Words(Pieces("%s %s %d", args)) == [CString(command), CString(key), SignedDecimal(timeout)]
  {
    hide Supported, Demand, Typed, Pieces, Words, SignedDecimal;
    ThreeConversions('s', 's', 'd', Data(command), Data(key), Whole(timeout));
    assert ['%', 's'] + " " + (['%', 's'] + " " + ['%', 'd']) == "%s %s %d";
  }

  /** A request of a client: the word LPUSH, the queue and the request. */
  lemma PushArguments(queue: Bytes, request: Bytes)
    ensures var args := [Data(queue), Data(request)];
            && Supported("LPUSH %s %s") && Demand("LPUSH %s %s") == 2 && Typed("LPUSH %s %s", args)
            && Words(Pieces("LPUSH %s %s", args)) == ["LPUSH", CString(queue), CString(request)]
  {
    hide Supported, Demand, Typed, Pieces, Words;
    ThreeWords(Letters("LPUSH"), Conversion('s', Data(queue)), Conversion('s', Data(request)));
    assert "LPUSH" + " " + (['%', 's'] + " " + ['%', 's']) == "LPUSH %s %s";
    assert [] + ([Data(queue)] + [Data(request)]) == [Data(queue), Data(request)];
  }

  /** Waiting for an answer, and the lifetime of a channel. */
  lemma WaitAndExpireArguments(key: Bytes, seconds: int)
    ensures var args := [Data(key), Whole(seconds)];
            && Supported("BRPOP %s %d") && Demand("BRPOP %s %d") == 2 && Typed("BRPOP %s %d", args)
            && Words(Pieces("BRPOP %s %d", args)) == ["BRPOP", CString(key), SignedDecimal(seconds)]
            && Supported("EXPIRE %s %d") && Demand("EXPIRE %s %d") == 2 && Typed("EXPIRE %s %d", args)
            && Words(Pieces("EXPIRE %s %d", args)) == ["EXPIRE", CString(key), SignedDecimal(seconds)]
  {
    hide Supported, Demand, Typed, Pieces, Words, SignedDecimal;
    ThreeWords(Letters("BRPOP"), Conversion('s', Data(key)), Conversion('d', Whole(seconds)));
    ThreeWords(Letters("EXPIRE"), Conversion('s', Data(key)), Conversion('d', Whole(seconds)));
    assert "BRPOP" + " " + (['%', 's'] + " " + ['%', 'd']) == "BRPOP %s %d";
    assert "EXPIRE" + " " + (['%', 's'] + " " + ['%', 'd']) == "EXPIRE %s %d";
    assert [] + ([Data(key)] + [Whole(seconds)]) == [Data(key), Whole(seconds)];
  }

  lemma LoginArguments(password: Bytes)
    ensures var args := [Data(password)];
            && Supported("AUTH %s") && Demand("AUTH %s") == 1 && Typed("AUTH %s", args)
            && Words(Pieces("AUTH %s", args)) == ["AUTH", CString(password)]
  {
    hide Supported, Demand, Typed, Pieces, Words;
    TwoWords(Letters("AUTH"), Conversion('s', Data(password)));
    assert "AUTH" + " " + ['%', 's'] == "AUTH %s";
    assert [] + [Data(password)] == [Data(password)];
  }

  /** The service names its database by number, a client by text. */
  lemma SelectArguments(database: int, instance: Bytes)
    ensures var args := [Whole(database)];
            && Supported("SELECT %d") && Demand("SELECT %d") == 1 && Typed("SELECT %d", args)
            && Words(Pieces("SELECT %d", args)) == ["SELECT", SignedDecimal(database)]
    ensures var args := [Data(instance)];
            && Supported("SELECT %s") && Demand("SELECT %s") == 1 && Typed("SELECT %s", args)
            && Words(Pieces("SELECT %s", args)) == ["SELECT", CString(instance)]
  {
    hide Supported, Demand, Typed, Pieces, Words, SignedDecimal;
    TwoWords(Letters("SELECT"), Conversion('d', Whole(database)));
    TwoWords(Letters("SELECT"), Conversion('s', Data(instance)));
    assert "SELECT" + " " + ['%', 'd'] == "SELECT %d" && "SELECT" + " " + ['%', 's'] == "SELECT %s";
    assert [] + [Whole(database)] == [Whole(database)] && [] + [Data(instance)] == [Data(instance)];
  }

  /** The check of a connection, and a doubled percent sign. */
  lemma PlainArguments()
    ensures Supported("PING") && Demand("PING") == 0 && Words(Pieces("PING", [])) == ["PING"]
    ensures Supported("%%") && Demand("%%") == 0 && Words(Pieces("%%", [])) == ["%"]
  {
    hide Supported, Demand, Typed, Pieces, Words, SpelledWords, TakenWords, PrintedWords, ProperWord;
    LettersAreOneWord("PING");
    SingleField(PercentSign);
    FormatIsItsWords([[PercentSign]]);
    SingleWord(PercentSign);
  }

  /** The bytes on the wire: the count of arguments, and for each its length and its bytes. */
  lemma CommandOnTheWire(argument: Bytes, others: seq<Bytes>)
    ensures Encode(CommandReply([argument] + others)) ==
            "*" + ToDecimal(1 + |others|) + "\r\n" + BulkBytes([argument] + others)
    ensures BulkBytes([argument] + others) ==
            "$" + ToDecimal(|argument|) + "\r\n" + argument + "\r\n" + BulkBytes(others)
    ensures BulkBytes([]) == []
  {
    hide Encode, CommandReply;
    CommandBytes([argument] + others);
    assert ([argument] + others)[1..] == others;
  }

  lemma PingOnTheWire()
    ensures Encode(CommandReply(["PING"])) == "*1\r\n$4\r\nPING\r\n"
  {
    hide Encode, CommandReply, BulkBytes;
    CommandOnTheWire("PING", []);
    assert ["PING"] + [] == ["PING"];
    assert ToDecimal(1) == "1" && ToDecimal(4) == "4";
  }

  lemma EmptyFormat()
    ensures Supported([]) && Demand([]) == 0 && Typed([], []) && Pieces([], []) == []
  {
  }
}
