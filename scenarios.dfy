/** Whole runs, from the model's reply text to the client's variable map, for
    the two replies that the instruction block of `analyzeImage` shows the
    model (lib/utils.ts): an equation solved for its unknown, and a direct
    assignment. The parser is left abstract: each lemma assumes only what
    `JSON.parse` gives for the one array text involved. */
module Scenarios {
  import opened Wrappers
  import opened Json
  import opened Types
  import opened Schema
  import opened Utils
  import opened Page

  /** The entries of the reply to "x = 3": a single assignment. */
  const AssignmentEntries: string := "{\"expr\": \"x\", " + "\"result\": \"3\", " + "\"assign\": true}"

  /** The first entry of the reply to "3x + 3 = 12": the equation itself. */
  const EquationFirst: string := "{\"expr\": \"3x + 3\", " + "\"result\": \"12\"}"

  /** The inside of the reply to "3x + 3 = 12", laid out over four lines as
      the instructions show it: the equation and the solved variable. */
  const EquationBody: string := "\n  " + EquationFirst + ",\n  " + AssignmentEntries + "\n"

  const AssignmentReply: string := "[" + AssignmentEntries + "]"

  /** The assignment reply with prose on both sides. */
  const AssignmentText: string := "Sure, here:\n" + AssignmentReply + "\nDone."

  /** A reply that holds no array at all. */
  const NoArrayText: string := "no answer"
  const EquationReply: string := "[" + EquationBody + "]"

  /** The inside of the equation reply with its line feeds removed. */
  const EquationBodyStripped: string := "  " + EquationFirst + ",  " + AssignmentEntries

  /** The equation reply as the parser receives it, line feeds removed. */
  const EquationStripped: string := "[" + EquationBodyStripped + "]"

  const EquationEntry: Json := JObj(map["expr" := JStr("3x + 3"), "result" := JStr("12")])
  const SolvedEntry: Json := JObj(map["expr" := JStr("x"), "result" := JStr("3"), "assign" := JBool(true)])

  /** The entries of the assignment reply hold no `]` and no line feed. */
  lemma AssignmentEntriesPlain()
    ensures ']' !in AssignmentEntries && '\n' !in AssignmentEntries
  {
  }

  /** The equation entry holds no `]` and no line feed. */
  lemma EquationFirstPlain()
    ensures ']' !in EquationFirst && '\n' !in EquationFirst
  {
  }

  /** The inside of the equation reply holds no `]`. */
  lemma EquationBodyPlain()
    ensures ']' !in EquationBody
  {
    AssignmentEntriesPlain();
    EquationFirstPlain();
  }

  /** Removing line feeds from text laid out as separators around two
      entries that hold none keeps the entries and strips the separators. */
  lemma {:induction false} StripAroundEntries(open: string, first: string, sep: string, second: string, close: string)
    requires '\n' !in first && '\n' !in second
    ensures StripNewlines(open + first + sep + second + close)
         == StripNewlines(open) + first + StripNewlines(sep) + second + StripNewlines(close)
  {
    StripNoNewline(first);
    StripNoNewline(second);
    StripConcat(open, first);
    StripConcat(open + first, sep);
    StripConcat(open + first + sep, second);
    StripConcat(open + first + sep + second, close);
  }

  /** Removing the line feeds of the equation reply leaves its entries
      separated by the indentation alone. */
  lemma EquationStrip()
    ensures StripNewlines(EquationReply) == EquationStripped
  {
    AssignmentEntriesPlain();
    EquationFirstPlain();
    StripAroundEntries("\n  ", EquationFirst, ",\n  ", AssignmentEntries, "\n");
    SeparatorStrips();
    var stripped := StripNewlines(EquationBody);
    assert stripped == EquationBodyStripped + "";
    StripConcat("[", EquationBody);
    StripConcat("[" + EquationBody, "]");
  }

  /** Each separator of the equation reply loses its line feed; the
      brackets stay. */
  lemma SeparatorStrips()
    ensures StripNewlines("\n  ") == "  "
    ensures StripNewlines(",\n  ") == ",  "
    ensures StripNewlines("\n") == ""
    ensures StripNewlines("[") == "[" && StripNewlines("]") == "]"
  {
  }

  /** A reply whose array holds no `]` but its closing one, preceded by prose
      without `[`, hands the parser that array with its line feeds removed,
      and an array of objects parsed from it comes back entry by entry. */
  lemma {:induction false} EmbeddedReply(before: string, entries: string, after: string,
                                         parse: string -> Option<Json>, answers: seq<Json>)
    requires '[' !in before && ']' !in entries
    requires parse(StripNewlines("[" + entries + "]")) == Some(JArr(answers))
    requires forall k :: 0 <= k < |answers| ==> answers[k].JObj?
    ensures var out := AnalyzeImage(Replied(before + ("[" + entries + "]") + after), parse);
            && |out| == |answers|
            && forall k :: 0 <= k < |out| ==> out[k] == ProcessAnswer(answers[k])
  {
    var body := "[" + entries + "]";
    assert body[..|body| - 1] == "[" + entries;
    assert ']' !in body[..|body| - 1];
    MatchEmbedded(before, body, after);
    var text := before + body + after;
    ParserInput(text, parse);
    assert AnalyzeImage(Replied(text), parse) == Interpret(StripNewlines(body), parse);
    assert forall k :: 0 <= k < |answers| ==> InOperandOk(answers[k]);
  }

  /** The prose before the assignment reply holds no `[`. */
  lemma ProsePlain()
    ensures '[' !in "Sure, here:\n"
  {
  }

  /** The equation entry, once processed, reads as a plain result. */
  lemma EquationEntryRead()
    ensures AsResponse(ProcessAnswer(EquationEntry)) == Some(Response("3x + 3", "12", false))
  {
    ProcessedAssignRead(EquationEntry.fields, "3x + 3", "12");
  }

  /** The solved entry, once processed, reads as an assignment. */
  lemma SolvedEntryRead()
    ensures AsResponse(ProcessAnswer(SolvedEntry)) == Some(Response("x", "3", true))
  {
    ProcessedAssignRead(SolvedEntry.fields, "x", "3");
  }

  /** Both sample batches bind x to 3 in an empty map. */
  lemma SampleMerges()
    ensures MergeAsWritten(map[], [Response("3x + 3", "12", false), Response("x", "3", true)]) == map["x" := "3"]
    ensures MergeAsWritten(map[], [Response("x", "3", true)]) == map["x" := "3"]
  {
    assert LastAssignment([Response("3x + 3", "12", false), Response("x", "3", true)]) == Some(1);
    assert LastAssignment([Response("x", "3", true)]) == Some(0);
  }

  /** The equation reply, laid out over several lines and surrounded by any
      prose without `[`, yields the two entries in their original order,
      only the second an assignment, and leaves the map that was empty as
      `{"x": "3"}`. */
  lemma EquationRun(before: string, after: string, parse: string -> Option<Json>)
    requires '[' !in before
    requires parse(EquationStripped) == Some(JArr([EquationEntry, SolvedEntry]))
    ensures var out := AnalyzeImage(Replied(before + EquationReply + after), parse);
            && |out| == 2
            && AsResponse(out[0]) == Some(Response("3x + 3", "12", false))
            && AsResponse(out[1]) == Some(Response("x", "3", true))
            && MergeAsWritten(map[], [AsResponse(out[0]).value, AsResponse(out[1]).value]) == map["x" := "3"]
  {
    EquationBodyPlain();
    EquationStrip();
    EmbeddedReply(before, EquationBody, after, parse, [EquationEntry, SolvedEntry]);
    EquationEntryRead();
    SolvedEntryRead();
    SampleMerges();
  }

  /** The direct assignment reply, with prose on both sides as in
      "Sure, here:\n[...]\nDone.", yields one assignment entry and the map
      `{"x": "3"}`. */
  lemma AssignmentRun(parse: string -> Option<Json>)
    requires parse(AssignmentReply) == Some(JArr([SolvedEntry]))
    ensures var out := AnalyzeImage(Replied(AssignmentText), parse);
            && |out| == 1
            && AsResponse(out[0]) == Some(Response("x", "3", true))
            && MergeAsWritten(map[], [AsResponse(out[0]).value]) == map["x" := "3"]
  {
    AssignmentEntriesPlain();
    ProsePlain();
    assert '\n' !in AssignmentReply;
    StripNoNewline(AssignmentReply);
    EmbeddedReply("Sure, here:\n", AssignmentEntries, "\nDone.", parse, [SolvedEntry]);
    SolvedEntryRead();
    SampleMerges();
  }

  /** The image of the sample request: a PNG data URL. */
  const SampleImage: string := ImagePrefix + "png;base64,AAAA"

  /** The first request of a session, sent with the empty variable map,
      passes the schema unchanged. */
  lemma FirstRequestAccepted()
    ensures Validate(JObj(map["image" := JStr(SampleImage), "dict_of_vars" := JObj(map[])]))
         == Success(CalculateRequest(SampleImage, map[]))
  {
    assert SampleImage[..|ImagePrefix|] == ImagePrefix;
  }

  /** A reply without any array is read by the client as a single
      non-assignment response carrying the "could not parse" message. */
  lemma NoArrayRun(parse: string -> Option<Json>)
    ensures var out := AnalyzeImage(Replied(NoArrayText), parse);
            && |out| == 1
            && AsResponse(out[0]) == Some(Response("Error", NoJsonMessage, false))
  {
    NoArrayGivesParseError(NoArrayText, parse);
    ErrorEntryRead("Error", NoJsonMessage);
  }

  /** A run whose model call replies with the assignment text: the answer
      list goes through the client's reading and `runRoute`, which binds x
      on top of whatever the map held. */
  method RunAssignmentReply(home: Home, pixels: array<byte>, width: nat, height: nat,
                            parse: string -> Option<Json>)
    requires pixels.Length == 4 * width * height
    requires parse(AssignmentReply) == Some(JArr([SolvedEntry]))
    requires home.dictOfVars == map[]
    modifies home
    ensures home.dictOfVars == map["x" := "3"]
    ensures home.latexExpressions == old(home.latexExpressions) && home.reset == old(home.reset)
  {
    AssignmentRun(parse);
    var answers := AnalyzeImage(Replied(AssignmentText), parse);
    var solved := AsResponse(answers[0]).value;
    var _ := home.RunRoute([solved], pixels, width, height);
  }

  /** A run whose model call replies without any array: the error entry
      goes through the client's reading and `runRoute` and leaves the map as
      it was. */
  method RunNoArrayReply(home: Home, pixels: array<byte>, width: nat, height: nat,
                         parse: string -> Option<Json>)
    requires pixels.Length == 4 * width * height
    modifies home
    ensures home.dictOfVars == old(home.dictOfVars)
    ensures home.latexExpressions == old(home.latexExpressions) && home.reset == old(home.reset)
  {
    NoArrayRun(parse);
    var answers := AnalyzeImage(Replied(NoArrayText), parse);
    var failed := AsResponse(answers[0]).value;
    MergeWithoutAssignment(home.dictOfVars, [failed]);
    var _ := home.RunRoute([failed], pixels, width, height);
  }

  /** A session on a fresh component: the first request passes the schema,
      its assignment reply goes through post-processing, the client's reading
      and `runRoute` and binds x; a second run whose reply holds no array
      yields the error entry, which leaves the binding alone; Reset then
      clears it. */
  method Session(pixels: array<byte>, width: nat, height: nat, parse: string -> Option<Json>)
    requires pixels.Length == 4 * width * height
    requires parse(AssignmentReply) == Some(JArr([SolvedEntry]))
  {
    var home := new Home();
    FirstRequestAccepted();
    RunAssignmentReply(home, pixels, width, height, parse);
    RunNoArrayReply(home, pixels, width, height, parse);
    assert home.dictOfVars == map["x" := "3"];
    home.RenderLatexToCanvas("x", "3");
    assert |home.latexExpressions| == 1;
    home.RequestReset();
    home.ResetEffect();
    assert home.dictOfVars == map[] && home.latexExpressions == [] && !home.reset;
  }
}
