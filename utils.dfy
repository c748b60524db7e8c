/** The post-processing half of `analyzeImage` (lib/utils.ts): from the
    recognition model's free text to the list of answer objects sent back to
    the client. The model call and `JSON.parse` are not modelled; they enter
    as a `CallOutcome` and as a `parse` function supplied by the caller. */
module Utils {
  import opened Wrappers
  import opened Json

  const NoJsonMessage: string := "Could not parse expression"
  const InvalidFormatMessage: string := "Invalid response format"
  const ApiErrorMessage: string := "API error occurred"

  /** What the call to the recognition model produced: its response text, or
      the string form of what it threw. */
  datatype CallOutcome = Replied(text: string) | Threw(description: string)

  // ---------------------------------------------------------------------------
  // Locating the array: the first `[` and the first `]` after it
  // ---------------------------------------------------------------------------

  /** The first position at or after `from` that holds `c`. */
  function IndexOf(s: string, c: char, from: nat): (r: Option<nat>)
    decreases |s| - from
    ensures r.Some? ==> from <= r.value < |s| && s[r.value] == c
    ensures r.Some? ==> forall k :: from <= k < r.value ==> s[k] != c
    ensures r.None? ==> forall k :: from <= k < |s| ==> s[k] != c
  {
    if from >= |s| then None
    else if s[from] == c then Some(from)
    else IndexOf(s, c, from + 1)
  }

  /** The span `(i, j)` of the leftmost, shortest match of the non-greedy
      pattern: `i` is the first `[` of the text and `j` the first `]` after
      it. Brackets are not balanced. */
  function FindArray(text: string): (r: Option<(nat, nat)>)
    ensures r.Some? ==>
              && r.value.0 < r.value.1 < |text|
              && text[r.value.0] == '[' && text[r.value.1] == ']'
              && (forall k :: 0 <= k < r.value.0 ==> text[k] != '[')
              && (forall k :: r.value.0 < k < r.value.1 ==> text[k] != ']')
    ensures r.None? <==> forall i, j :: 0 <= i < j < |text| && text[i] == '[' ==> text[j] != ']'
  {
    match IndexOf(text, '[', 0)
    case None => None
    case Some(i) =>
      match IndexOf(text, ']', i + 1)
      case None =>
        assert forall i', j :: 0 <= i' < j < |text| && text[i'] == '[' ==> text[j] != ']' by {
          forall i', j | 0 <= i' < j < |text| && text[i'] == '[' ensures text[j] != ']' {
            assert i <= i';
          }
        }
        None
      case Some(j) => Some((i, j))
  }

  /** `text.match(...)[0]`: the matched text, brackets included. */
  function MatchArray(text: string): (r: Option<string>)
    ensures r.None? <==> FindArray(text).None?
    ensures r.Some? ==> r.value == text[FindArray(text).value.0..FindArray(text).value.1 + 1]
  {
    match FindArray(text)
    case None => None
    case Some((i, j)) => Some(text[i..j + 1])
  }

  /** The match starts with `[`, ends with `]` and holds no other `]`. */
  lemma MatchShape(text: string)
    requires MatchArray(text).Some?
    ensures var m := MatchArray(text).value;
            && |m| >= 2 && m[0] == '[' && m[|m| - 1] == ']'
            && forall k :: 0 <= k < |m| - 1 ==> m[k] != ']'
  {
    var (i, j) := FindArray(text).value;
    var m := MatchArray(text).value;
    assert m == text[i..j + 1];
    forall k | 0 <= k < |m| - 1 ensures m[k] != ']' {
      assert m[k] == text[i + k];
    }
  }

  /** An array embedded in prose is found whole: when nothing before it
      holds `[` and it holds no `]` but its last character, the match is
      exactly that array, whatever follows it. */
  lemma {:induction false} MatchEmbedded(before: string, body: string, after: string)
    requires '[' !in before
    requires |body| >= 2 && body[0] == '[' && body[|body| - 1] == ']'
    requires ']' !in body[..|body| - 1]
    ensures MatchArray(before + body + after) == Some(body)
  {
    var text := before + body + after;
    var i := |before|;
    var j := |before| + |body| - 1;
    assert text[i] == '[' && text[j] == ']';
    forall k | 0 <= k < i ensures text[k] != '[' {
      assert text[k] == before[k];
    }
    forall k | i < k < j ensures text[k] != ']' {
      assert text[k] == body[k - i];
      assert body[k - i] in body[..|body| - 1];
    }
    assert text[i..j + 1] == body;
    var r := FindArray(text);
    assert r.Some? by {
      assert 0 <= i < j < |text| && text[i] == '[' && text[j] == ']';
    }
    var (i', j') := r.value;
    // Each of the two spans starts at a `[` that no earlier `[` precedes,
    // and ends at a `]` that no `]` between them precedes.
    assert i' <= i && i <= i';
    assert j' <= j && j <= j';
  }

  // ---------------------------------------------------------------------------
  // Removing every line feed from the matched text
  // ---------------------------------------------------------------------------

  /** The text with every line feed removed. Carriage returns and all other
      characters are kept. */
  function StripNewlines(s: string): (r: string)
    ensures '\n' !in r
    ensures |r| <= |s|
  {
    if s == [] then [] else Kept(s[0]) + StripNewlines(s[1..])
  }

  /** What stripping leaves of a single character. */
  function Kept(c: char): string {
    if c == '\n' then [] else [c]
  }

  /** Stripping distributes over concatenation, so every character that is
      not a line feed keeps its place relative to the others. */
  lemma {:induction false} StripConcat(a: string, b: string)
    ensures StripNewlines(a + b) == StripNewlines(a) + StripNewlines(b)
  {
    if a == [] {
      assert a + b == b;
    } else {
      assert (a + b)[0] == a[0];
      assert (a + b)[1..] == a[1..] + b;
      StripConcat(a[1..], b);
      assert StripNewlines(a + b) == Kept(a[0]) + (StripNewlines(a[1..]) + StripNewlines(b));
    }
  }

  /** Stripping keeps exactly the characters that are not line feeds, each
      as many times as it occurs; so the length drops by the number of line
      feeds removed. */
  lemma {:induction false} StripCounts(s: string)
    ensures multiset(StripNewlines(s)) == multiset(s)['\n' := 0]
    ensures |StripNewlines(s)| == |s| - multiset(s)['\n']
  {
    if s != [] {
      StripCounts(s[1..]);
      assert s == [s[0]] + s[1..];
      assert multiset(s) == multiset{s[0]} + multiset(s[1..]);
    }
  }

  /** Text without line feeds is left unchanged. */
  lemma {:induction false} StripNoNewline(s: string)
    requires '\n' !in s
    ensures StripNewlines(s) == s
  {
    if s != [] {
      assert s == [s[0]] + s[1..];
      StripNoNewline(s[1..]);
    }
  }

  /** Stripping twice is stripping once. */
  lemma StripIdempotent(s: string)
    ensures StripNewlines(StripNewlines(s)) == StripNewlines(s)
  {
    StripNoNewline(StripNewlines(s));
  }

  // ---------------------------------------------------------------------------
  // Rewriting `assign` on every parsed answer
  // ---------------------------------------------------------------------------

  /** The decimal form of an array index, which is how JavaScript names the
      properties an array spreads into an object. */
  function IndexName(n: nat): (r: string)
    ensures |r| >= 1
    ensures n < 10 <==> |r| == 1
  {
    if n < 10 then [('0' as int + n) as char]
    else IndexName(n / 10) + [('0' as int + n % 10) as char]
  }

  /** The name of an index is made of decimal digits only. */
  lemma {:induction false} IndexNameDigits(n: nat)
    ensures forall i :: 0 <= i < |IndexName(n)| ==> '0' <= IndexName(n)[i] <= '9'
  {
    if n >= 10 {
      IndexNameDigits(n / 10);
      var r := IndexName(n);
      assert r[..|r| - 1] == IndexName(n / 10);
      forall i | 0 <= i < |r| ensures '0' <= r[i] <= '9' {
        if i < |r| - 1 {
          assert r[i] == IndexName(n / 10)[i];
        }
      }
    }
  }

  /** Distinct indices have distinct names. */
  lemma {:induction false} IndexNameInjective(a: nat, b: nat)
    requires IndexName(a) == IndexName(b)
    ensures a == b
  {
    var ra, rb := IndexName(a), IndexName(b);
    if a < 10 && b < 10 {
      assert ra[0] == rb[0];
    } else if a >= 10 && b >= 10 {
      assert ra[|ra| - 1] == rb[|rb| - 1];
      assert ra[..|ra| - 1] == IndexName(a / 10);
      assert rb[..|rb| - 1] == IndexName(b / 10);
      IndexNameInjective(a / 10, b / 10);
    }
  }

  /** The names of the indices below `n`. */
  function IndexNames(n: nat): set<string> {
    set k: nat | k < n :: IndexName(k)
  }

  /** The names of the indices below `n + 1` are those below `n` and the name
      of `n`. */
  lemma IndexNamesStep(n: nat)
    ensures IndexNames(n + 1) == IndexNames(n) + {IndexName(n)}
  {
  }

  /** Two different indices have different names. */
  lemma IndexNameDistinct(a: nat, b: nat)
    requires a != b
    ensures IndexName(a) != IndexName(b)
  {
    if IndexName(a) == IndexName(b) {
      IndexNameInjective(a, b);
      assert false;
    }
  }

  /** No index is named `assign`. */
  lemma IndexNameNotAssign(n: nat)
    ensures IndexName(n) != "assign"
  {
    IndexNameDigits(n);
    var r := IndexName(n);
    assert '0' <= r[|r| - 1] <= '9';
  }

  /** Binding the last index of `items` on top of the bindings of the
      indices before it binds every index to its element. */
  lemma SpreadStep(items: seq<Json>, front: map<string, Json>)
    requires |items| >= 1
    requires forall k :: 0 <= k < |items| - 1 ==> IndexName(k) in front && front[IndexName(k)] == items[k]
    ensures var fields := front[IndexName(|items| - 1) := items[|items| - 1]];
            forall k :: 0 <= k < |items| ==> IndexName(k) in fields && fields[IndexName(k)] == items[k]
  {
    var n := |items| - 1;
    var fields := front[IndexName(n) := items[n]];
    forall k | 0 <= k < |items| ensures IndexName(k) in fields && fields[IndexName(k)] == items[k] {
      if k < n {
        IndexNameDistinct(k, n);
      }
    }
  }

  /** The own properties of an array spread into an object literal: one per
      index, named by its decimal form. */
  function SpreadArray(items: seq<Json>): (fields: map<string, Json>)
    ensures fields.Keys == IndexNames(|items|)
    ensures forall k :: 0 <= k < |items| ==> IndexName(k) in fields && fields[IndexName(k)] == items[k]
    ensures "assign" !in fields
  {
    if |items| == 0 then map[]
    else
      var n := |items| - 1;
      var front := SpreadArray(items[..n]);
      assert |items[..n]| == n;
      IndexNamesStep(n);
      IndexNameNotAssign(n);
      var fields := front[IndexName(n) := items[n]];
      assert fields.Keys == front.Keys + {IndexName(n)};
      SpreadStep(items, front);
      fields
  }

  /** `'assign' in answer` throws a TypeError unless the element is an
      object; arrays are objects too. */
  predicate InOperandOk(answer: Json) {
    answer.JObj? || answer.JArr?
  }

  /** One processed answer: the element's own properties, with `assign` set
      to whether the element had that key at all, whatever its value. */
  function ProcessAnswer(answer: Json): (r: Json)
    requires InOperandOk(answer)
    ensures r.JObj? && "assign" in r.fields
    ensures answer.JObj? ==>
              && r.fields.Keys == answer.fields.Keys + {"assign"}
              && r.fields["assign"] == JBool("assign" in answer.fields)
              && forall key :: key in answer.fields && key != "assign" ==> r.fields[key] == answer.fields[key]
    ensures answer.JArr? ==>
              && r.fields.Keys == SpreadArray(answer.items).Keys + {"assign"}
              && r.fields["assign"] == JBool(false)
              && forall k :: 0 <= k < |answer.items| ==> r.fields[IndexName(k)] == answer.items[k]
  {
    match answer
    case JObj(fields) => JObj(fields["assign" := JBool("assign" in fields)])
    case JArr(items) => JObj(SpreadArray(items)["assign" := JBool(false)])
  }

  /** `answers.map(...)`: the processed list, or `None` when some element
      makes the `in` operator throw. */
  function ProcessAnswers(answers: seq<Json>): (r: Option<seq<Json>>)
    ensures r.Some? <==> forall k :: 0 <= k < |answers| ==> InOperandOk(answers[k])
    ensures r.Some? ==> |r.value| == |answers|
    ensures r.Some? ==> forall k :: 0 <= k < |answers| ==> r.value[k] == ProcessAnswer(answers[k])
  {
    if answers == [] then Some([])
    else if !InOperandOk(answers[0]) then None
    else match ProcessAnswers(answers[1..])
      case None => None
      case Some(rest) => Some([ProcessAnswer(answers[0])] + rest)
  }

  // ---------------------------------------------------------------------------
  // The whole post-processing, with its three failure lists
  // ---------------------------------------------------------------------------

  /** The answer list used for every failure: one object with an `expr` and a
      `result` and no `assign` key. */
  function ErrorList(expr: string, message: string): (r: seq<Json>)
    ensures |r| == 1 && r[0].JObj? && "assign" !in r[0].fields
    ensures r[0].fields.Keys == {"expr", "result"}
    ensures r[0].fields["expr"] == JStr(expr) && r[0].fields["result"] == JStr(message)
  {
    [JObj(map["expr" := JStr(expr), "result" := JStr(message)])]
  }

  /** What the inner `try` yields for one extracted array text: the processed
      answers, or the invalid-format list when parsing fails, the parsed
      value is not an array (so has no `map`), or `in` throws on an element. */
  function Interpret(jsonStr: string, parse: string -> Option<Json>): (r: seq<Json>)
    ensures forall k :: 0 <= k < |r| ==> r[k].JObj?
    ensures r == [] <==> parse(jsonStr) == Some(JArr([]))
    ensures var parsed := parse(jsonStr);
            if && parsed.Some? && parsed.value.JArr?
               && forall k :: 0 <= k < |parsed.value.items| ==> InOperandOk(parsed.value.items[k])
            then |r| == |parsed.value.items| && forall k :: 0 <= k < |r| ==> r[k] == ProcessAnswer(parsed.value.items[k])
            else r == ErrorList("Error", InvalidFormatMessage)
    ensures r != ErrorList("Error", NoJsonMessage)
  {
    match parse(jsonStr)
    case Some(JArr(answers)) =>
      (match ProcessAnswers(answers)
       case Some(processed) => processed
       case None => ErrorList("Error", InvalidFormatMessage))
    case _ => ErrorList("Error", InvalidFormatMessage)
  }

  /** What `analyzeImage` returns after the model has replied with `text`. */
  function ProcessText(text: string, parse: string -> Option<Json>): (r: seq<Json>)
    ensures forall k :: 0 <= k < |r| ==> r[k].JObj?
    ensures r == ErrorList("Error", NoJsonMessage) <==> FindArray(text).None?
  {
    match MatchArray(text)
    case None => ErrorList("Error", NoJsonMessage)
    case Some(m) => Interpret(StripNewlines(m), parse)
  }

  /** `analyzeImage`: the answer list for one recognition call. */
  function AnalyzeImage(call: CallOutcome, parse: string -> Option<Json>): (r: seq<Json>)
    ensures forall k :: 0 <= k < |r| ==> r[k].JObj?
    ensures call.Threw? ==> |r| == 1 && r[0].JObj? && "result" in r[0].fields && r[0].fields["result"] == JStr(ApiErrorMessage)
    ensures call.Replied? ==> (r == ErrorList("Error", NoJsonMessage) <==> FindArray(call.text).None?)
  {
    match call
    case Threw(description) => ErrorList("Error: " + description, ApiErrorMessage)
    case Replied(text) => ProcessText(text, parse)
  }

  // ---------------------------------------------------------------------------
  // Properties of the pipeline
  // ---------------------------------------------------------------------------

  /** Without a `[` followed somewhere by a `]`, the result is exactly the
      "could not parse" list, whatever the parser would have said. */
  lemma NoArrayGivesParseError(text: string, parse: string -> Option<Json>)
    requires forall i, j :: 0 <= i < j < |text| && text[i] == '[' ==> text[j] != ']'
    ensures AnalyzeImage(Replied(text), parse) == ErrorList("Error", NoJsonMessage)
  {
  }

  /** The parser sees the matched text with its line feeds removed and
      nothing else. */
  lemma ParserInput(text: string, parse: string -> Option<Json>)
    requires MatchArray(text).Some?
    ensures AnalyzeImage(Replied(text), parse) == Interpret(StripNewlines(MatchArray(text).value), parse)
  {
  }

  /** After a successful parse of an array of objects the answers keep their
      number and order, every key but `assign` keeps its value (so `expr` and
      `result` are passed on unchanged, whatever their type), and `assign`
      records only whether the key was present: `"assign": false` yields
      true and a missing key yields false. */
  lemma AnswersPreserved(text: string, parse: string -> Option<Json>, answers: seq<Json>)
    requires MatchArray(text).Some?
    requires parse(StripNewlines(MatchArray(text).value)) == Some(JArr(answers))
    requires forall k :: 0 <= k < |answers| ==> answers[k].JObj?
    ensures var r := AnalyzeImage(Replied(text), parse);
            && |r| == |answers|
            && forall k :: 0 <= k < |r| ==>
                 && r[k].JObj?
                 && r[k].fields.Keys == answers[k].fields.Keys + {"assign"}
                 && r[k].fields["assign"] == JBool("assign" in answers[k].fields)
                 && forall key :: key in answers[k].fields && key != "assign" ==> r[k].fields[key] == answers[k].fields[key]
  {
    assert forall k :: 0 <= k < |answers| ==> InOperandOk(answers[k]);
  }

  /** An extracted empty array gives an empty answer list, not an error. */
  lemma EmptyArrayGivesNoAnswers(text: string, parse: string -> Option<Json>)
    requires MatchArray(text).Some?
    requires parse(StripNewlines(MatchArray(text).value)) == Some(JArr([]))
    ensures AnalyzeImage(Replied(text), parse) == []
  {
  }

  /** The invalid-format list is returned exactly when parsing fails, the
      parsed value is not an array, or one of its elements is not an object. */
  lemma InvalidFormatExactly(text: string, parse: string -> Option<Json>)
    requires MatchArray(text).Some?
    ensures var parsed := parse(StripNewlines(MatchArray(text).value));
            AnalyzeImage(Replied(text), parse) == ErrorList("Error", InvalidFormatMessage)
            <==> || parsed.None?
                 || !parsed.value.JArr?
                 || exists k :: 0 <= k < |parsed.value.items| && !InOperandOk(parsed.value.items[k])
  {
    var parsed := parse(StripNewlines(MatchArray(text).value));
    if parsed.Some? && parsed.value.JArr? {
      var answers := parsed.value.items;
      var processed := ProcessAnswers(answers);
      if processed.Some? && |answers| > 0 {
        // A processed answer always carries `assign`; the error entry never does.
        assert "assign" in processed.value[0].fields;
      }
    }
  }

  /** A call that throws never escapes: the result is one entry whose
      `result` is the API error message and whose `expr` starts with
      "Error: " followed by the description of what was thrown. */
  lemma ApiErrorContained(description: string, parse: string -> Option<Json>)
    ensures var r := AnalyzeImage(Threw(description), parse);
            && |r| == 1
            && r[0].fields["result"] == JStr(ApiErrorMessage)
            && r[0].fields["expr"].JStr?
            && r[0].fields["expr"].s[..7] == "Error: "
            && r[0].fields["expr"].s[7..] == description
  {
  }

  /** Every answer list holds only objects, and it is empty only when the
      model's array parsed as an empty array. */
  lemma {:induction false} OnlyObjects(call: CallOutcome, parse: string -> Option<Json>)
    ensures forall k :: 0 <= k < |AnalyzeImage(call, parse)| ==> AnalyzeImage(call, parse)[k].JObj?
    ensures AnalyzeImage(call, parse) == [] ==>
              && call.Replied?
              && MatchArray(call.text).Some?
              && parse(StripNewlines(MatchArray(call.text).value)) == Some(JArr([]))
  {
    if call.Replied? && MatchArray(call.text).Some? {
      var parsed := parse(StripNewlines(MatchArray(call.text).value));
      if parsed.Some? && parsed.value.JArr? && ProcessAnswers(parsed.value.items).Some? {
        var answers := parsed.value.items;
        forall k | 0 <= k < |answers| ensures ProcessAnswers(answers).value[k].JObj? {
          assert ProcessAnswers(answers).value[k] == ProcessAnswer(answers[k]);
        }
      }
    }
  }
}
