/**
 * `process_message` (main.py, handle-Flask.py): one upstream call and the aggregation of its
 * answer. The HTTP exchange and `json.loads` are inputs: the exchange is an `Upstream` value,
 * the JSON decoder a function `parse` from a text to a `Parsed`.
 */
module Aggregation {
  import opened Wrappers
  import opened Text

  /** What `json.loads(text)` gives: a decode error, or a document whose `'answer'` key may be absent. */
  datatype Parsed = Invalid | Valid(answer: Option<string>)

  /**
   * The upstream exchange. `NoResponse`: `session.post` raised before a response (connection
   * error, timeout). `Response`: the status, `response.content_type`, the body as the decoded
   * lines `response.content` yields, and whether reading the body raised after those lines
   * (`cut`: a timeout, a dropped connection or a decoding error mid-body).
   */
  datatype Upstream =
    | NoResponse
    | Response(status: int, contentType: string, body: seq<string>, cut: bool)

  /** The three accumulators of the loop: `answer`, `response_data` and `code`. */
  datatype State = State(answer: string, responseData: string, code: int)

  /** Which of the two servers: handle-Flask.py also forces `code = -1` on an empty answer. */
  datatype Variant = FastApi | Flask

  /** The result of `process_message` (it returns `answer`) and the status flag it ends with. */
  datatype Processed = Processed(answer: string, code: int)

  const DataPrefix: string := "data: "
  const DoneMarker: string := "[DONE]"
  const JsonType: string := "application/json"
  const StreamType: string := "text/event-stream"

  /** The initial accumulators once the status is 200. */
  const Start: State := State("", "", 0)

  /** `line.strip().replace('data: ', '')`. */
  function CleanLine(line: string): string
  {
    Replace(Strip(line), DataPrefix, "")
  }

  /** `data.get('answer', '')`. */
  function AnswerOf(a: Option<string>): string
  {
    a.GetOr("")
  }

  /** One pass of the `async for line in response.content` loop. */
  function Step(st: State, line: string, parse: string -> Parsed): State
  {
    var j := CleanLine(line);
    var recorded := st.(responseData := st.responseData + j + "\n");
    if j == DoneMarker || j == "" then recorded
    else match parse(j)
      case Invalid => recorded.(code := -1)
      case Valid(a) =>
        var content := AnswerOf(a);
        if content != "" then recorded.(answer := recorded.answer + content) else recorded
  }

  /** The loop run over `lines`, in order, from `st`. */
  function Fold(st: State, lines: seq<string>, parse: string -> Parsed): State
  {
    if lines == [] then st
    else Step(Fold(st, lines[..|lines| - 1], parse), lines[|lines| - 1], parse)
  }

  // ---------------------------------------------------------------- per-line reference view

  /** The answer text one line adds: the non-empty answer of a line that decodes, nothing otherwise. */
  function Contribution(line: string, parse: string -> Parsed): string
  {
    var j := CleanLine(line);
    if j == DoneMarker || j == "" then ""
    else match parse(j)
      case Valid(Some(a)) => a
      case _ => ""
  }

  /** The line reaches `json.loads` and is rejected. */
  predicate Rejected(line: string, parse: string -> Parsed)
  {
    var j := CleanLine(line);
    j != DoneMarker && j != "" && parse(j) == Invalid
  }

  /** Some line of `lines` is rejected. */
  predicate AnyRejected(lines: seq<string>, parse: string -> Parsed)
  {
    exists i :: 0 <= i < |lines| && Rejected(lines[i], parse)
  }

  /** The contributions of `lines`, first to last. */
  function Answers(lines: seq<string>, parse: string -> Parsed): string
  {
    if lines == [] then "" else Contribution(lines[0], parse) + Answers(lines[1..], parse)
  }

  /** The cleaned lines, each followed by a newline, first to last. */
  function Transcript(lines: seq<string>): string
  {
    if lines == [] then "" else CleanLine(lines[0]) + "\n" + Transcript(lines[1..])
  }

  lemma {:induction false} AnswersAppend(a: seq<string>, b: seq<string>, parse: string -> Parsed)
    ensures Answers(a + b, parse) == Answers(a, parse) + Answers(b, parse)
  {
    if a != [] {
      assert (a + b)[1..] == a[1..] + b;
      AnswersAppend(a[1..], b, parse);
    } else {
      assert a + b == b;
    }
  }

  lemma {:induction false} TranscriptAppend(a: seq<string>, b: seq<string>)
    ensures Transcript(a + b) == Transcript(a) + Transcript(b)
  {
    if a != [] {
      assert (a + b)[1..] == a[1..] + b;
      TranscriptAppend(a[1..], b);
    } else {
      assert a + b == b;
    }
  }

  /** One pass of the loop, described by the per-line view. */
  lemma StepCharacterised(st: State, line: string, parse: string -> Parsed)
    ensures Step(st, line, parse).answer == st.answer + Contribution(line, parse)
    ensures Step(st, line, parse).responseData == st.responseData + (CleanLine(line) + "\n")
    ensures Step(st, line, parse).code == if Rejected(line, parse) then -1 else st.code
  {
    var j := CleanLine(line);
    assert st.responseData + j + "\n" == st.responseData + (j + "\n");
  }

  /** The loop's answer is the contributions of all lines, in order, after what it started with. */
  lemma {:induction false} FoldAnswer(st: State, lines: seq<string>, parse: string -> Parsed)
    ensures Fold(st, lines, parse).answer == st.answer + Answers(lines, parse)
  {
    if lines != [] {
      var init, last := lines[..|lines| - 1], lines[|lines| - 1];
      assert lines == init + [last];
      assert Fold(st, lines, parse) == Step(Fold(st, init, parse), last, parse);
      FoldAnswer(st, init, parse);
      StepCharacterised(Fold(st, init, parse), last, parse);
      AnswersAppend(init, [last], parse);
      assert Answers([last], parse) == Contribution(last, parse) + Answers([], parse);
    }
  }

  /** `response_data` gains every cleaned line and a newline, `[DONE]` and blank lines included. */
  lemma {:induction false} FoldTranscript(st: State, lines: seq<string>, parse: string -> Parsed)
    ensures Fold(st, lines, parse).responseData == st.responseData + Transcript(lines)
  {
    if lines != [] {
      var init, last := lines[..|lines| - 1], lines[|lines| - 1];
      assert lines == init + [last];
      assert Fold(st, lines, parse) == Step(Fold(st, init, parse), last, parse);
      FoldTranscript(st, init, parse);
      StepCharacterised(Fold(st, init, parse), last, parse);
      TranscriptAppend(init, [last]);
      assert Transcript([last]) == CleanLine(last) + "\n" + Transcript([]);
    }
  }

  /** `code` becomes -1 exactly when some line is rejected by the decoder; otherwise it is kept. */
  lemma {:induction false} FoldCode(st: State, lines: seq<string>, parse: string -> Parsed)
    ensures Fold(st, lines, parse).code == if AnyRejected(lines, parse) then -1 else st.code
  {
    if lines != [] {
      var init, last := lines[..|lines| - 1], lines[|lines| - 1];
      assert lines == init + [last];
      assert Fold(st, lines, parse) == Step(Fold(st, init, parse), last, parse);
      FoldCode(st, init, parse);
      StepCharacterised(Fold(st, init, parse), last, parse);
      assert AnyRejected(lines, parse) == (AnyRejected(init, parse) || Rejected(last, parse)) by {
        if AnyRejected(lines, parse) && !Rejected(last, parse) {
          var i :| 0 <= i < |lines| && Rejected(lines[i], parse);
          assert i < |init| && init[i] == lines[i];
        }
        if AnyRejected(init, parse) {
          var i :| 0 <= i < |init| && Rejected(init[i], parse);
          assert lines[i] == init[i];
        }
        if Rejected(last, parse) {
          assert lines[|lines| - 1] == last;
        }
      }
    }
  }

  /** Running the loop over two pieces of a stream one after the other is running it over the whole. */
  lemma {:induction false} FoldAppend(st: State, a: seq<string>, b: seq<string>, parse: string -> Parsed)
    ensures Fold(st, a + b, parse) == Fold(Fold(st, a, parse), b, parse)
  {
    if b == [] {
      assert a + b == a;
    } else {
      var b', last := b[..|b| - 1], b[|b| - 1];
      assert a + b == (a + b') + [last] && (a + b)[..|a + b| - 1] == a + b';
      FoldAppend(st, a, b', parse);
    }
  }

  /** A line that adds nothing to the answer can be dropped without changing the answer. */
  lemma SilentLineDropped(st: State, before: seq<string>, line: string, after: seq<string>, parse: string -> Parsed)
    requires Contribution(line, parse) == ""
    ensures Fold(st, before + [line] + after, parse).answer == Fold(st, before + after, parse).answer
  {
    var withLine := before + [line];
    assert Answers([line], parse) == "" by {
      assert Answers([line], parse) == Contribution(line, parse) + Answers([], parse);
    }
    assert Answers(withLine, parse) == Answers(before, parse) by {
      AnswersAppend(before, [line], parse);
      assert Answers(before, parse) + "" == Answers(before, parse);
    }
    assert Answers(withLine + after, parse) == Answers(before + after, parse) by {
      AnswersAppend(withLine, after, parse);
      AnswersAppend(before, after, parse);
    }
    FoldAnswer(st, withLine + after, parse);
    FoldAnswer(st, before + after, parse);
  }

  /**
   * A line the decoder rejects sets `code` to -1 and does not stop the loop: the answer is the one
   * the surrounding lines give without it.
   */
  lemma BadLineTolerated(st: State, before: seq<string>, bad: string, after: seq<string>, parse: string -> Parsed)
    requires Rejected(bad, parse)
    ensures Fold(st, before + [bad] + after, parse).answer == Fold(st, before + after, parse).answer
    ensures Fold(st, before + [bad] + after, parse).code == -1
  {
    var lines := before + [bad] + after;
    assert Contribution(bad, parse) == "";
    SilentLineDropped(st, before, bad, after, parse);
    assert AnyRejected(lines, parse) by { assert lines[|before|] == bad; }
    FoldCode(st, lines, parse);
  }

  /** Dropping a line the decoder does not reject leaves the question "was some line rejected?" unchanged. */
  lemma AcceptedLineDropped(before: seq<string>, line: string, after: seq<string>, parse: string -> Parsed)
    requires !Rejected(line, parse)
    ensures AnyRejected(before + [line] + after, parse) == AnyRejected(before + after, parse)
  {
    var lines, rest := before + [line] + after, before + after;
    var n := |before|;
    assert forall i :: 0 <= i < n ==> lines[i] == rest[i] == before[i];
    assert forall i :: n < i < |lines| ==> lines[i] == rest[i - 1] == after[i - n - 1];
    assert lines[n] == line;
    if AnyRejected(lines, parse) {
      var i :| 0 <= i < |lines| && Rejected(lines[i], parse);
      if i < n {
        assert Rejected(rest[i], parse);
      } else {
        assert Rejected(rest[i - 1], parse);
      }
    }
    if AnyRejected(rest, parse) {
      var i :| 0 <= i < |rest| && Rejected(rest[i], parse);
      if i < n {
        assert Rejected(lines[i], parse);
      } else {
        assert Rejected(lines[i + 1], parse);
      }
    }
  }

  /**
   * `[DONE]` and blank lines never reach the decoder or the answer: dropping one changes neither
   * `answer` nor `code`.
   */
  lemma SkippedLineIgnored(st: State, before: seq<string>, line: string, after: seq<string>, parse: string -> Parsed)
    requires CleanLine(line) == DoneMarker || CleanLine(line) == ""
    ensures Fold(st, before + [line] + after, parse).answer == Fold(st, before + after, parse).answer
    ensures Fold(st, before + [line] + after, parse).code == Fold(st, before + after, parse).code
  {
    assert Contribution(line, parse) == "" && !Rejected(line, parse);
    SilentLineDropped(st, before, line, after, parse);
    AcceptedLineDropped(before, line, after, parse);
    FoldCode(st, before + [line] + after, parse);
    FoldCode(st, before + after, parse);
  }

  /** The transcript of `before`, one line, then `after`, is made of the three transcripts in order. */
  lemma TranscriptAround(before: seq<string>, line: string, after: seq<string>)
    ensures Transcript(before + [line] + after) == Transcript(before) + (CleanLine(line) + "\n") + Transcript(after)
  {
    assert Transcript([line]) == CleanLine(line) + "\n" by {
      assert Transcript([line]) == CleanLine(line) + "\n" + Transcript([]);
    }
    TranscriptAppend(before, [line]);
    TranscriptAppend(before + [line], after);
  }

  /** Every line, `[DONE]` and blank ones included, is written to `response_data` in its cleaned form. */
  lemma EveryLineRecorded(st: State, before: seq<string>, line: string, after: seq<string>, parse: string -> Parsed)
    ensures Fold(st, before + [line] + after, parse).responseData
         == st.responseData + Transcript(before) + (CleanLine(line) + "\n") + Transcript(after)
  {
    var a, t, z := Transcript(before), CleanLine(line) + "\n", Transcript(after);
    assert Fold(st, before + [line] + after, parse).responseData == st.responseData + (a + t + z) by {
      FoldTranscript(st, before + [line] + after, parse);
      TranscriptAround(before, line, after);
    }
    assert st.responseData + (a + t + z) == st.responseData + a + t + z;
  }

  // ---------------------------------------------------------------- the role marker

  /** `answer[:2] in ("0:", "1:")`. */
  predicate HasMarker(answer: string)
  {
    |answer| >= 2 && (answer[..2] == "0:" || answer[..2] == "1:")
  }

  /** `answer[2:].strip() if answer[:2] in ("0:", "1:") else answer`. */
  function StripMarker(answer: string): (r: string)
    ensures |r| <= |answer|
    ensures HasMarker(answer) ==> |r| <= |answer| - 2
    ensures HasMarker(answer) ==> r == Strip(answer[2..]) && exists i :: StrippedAt(answer[2..], r, i)
    ensures !HasMarker(answer) ==> r == answer
  {
    if HasMarker(answer) then
      StripSpec(answer[2..]);
      Strip(answer[2..])
    else answer
  }

  /** A marked answer loses its marker and surrounding whitespace; `"0:hello"` becomes `"hello"`. */
  lemma StripMarkerOfMarked(s: string)
    ensures StripMarker("0:" + s) == Strip(s) && StripMarker("1:" + s) == Strip(s)
    ensures StripMarker("0:hello") == "hello"
  {
    assert ("0:" + s)[..2] == "0:" && ("0:" + s)[2..] == s;
    assert ("1:" + s)[..2] == "1:" && ("1:" + s)[2..] == s;
    assert ("0:" + "hello") == "0:hello";
    StripKeepsTrimmed("hello");
  }

  // ---------------------------------------------------------------- the whole call

  /** The accumulators when the `try` block is left, normally or through the `except` clause. */
  function Received(up: Upstream, parse: string -> Parsed): State
  {
    match up
    case NoResponse => State("", "", -1)
    case Response(status, contentType, body, cut) =>
      if status != 200 then State("", "", -1)
      else if contentType == JsonType then
        if cut then State("", "", -1)
        else match parse(Concat(body))
          case Invalid => State("", "", -1)
          case Valid(a) => State(AnswerOf(a), "", 0)
      else if contentType == StreamType then
        var st := Fold(Start, body, parse);
        if cut then st.(code := -1) else st
      else State("", "", -1)
  }

  /** What `process_message` returns and the `code` it ends with. */
  function Outcome(up: Upstream, parse: string -> Parsed, variant: Variant): Processed
  {
    var st := Received(up, parse);
    var answer := StripMarker(st.answer);
    Processed(answer, if variant == Flask && answer == "" then -1 else st.code)
  }

  /** The mutable locals of `process_message`. */
  class Aggregator {
    var answer: string
    var responseData: string
    var code: int

    function Snapshot(): State
      reads this
    {
      State(answer, responseData, code)
    }

    /** `answer = ''`, `response_data = ''`, and the status flag of a 200 response. */
    constructor ()
      ensures Snapshot() == Start
    {
      answer, responseData, code := "", "", 0;
    }

    /** One pass of the loop body over `line`. */
    method FeedLine(line: string, parse: string -> Parsed)
      modifies this
      ensures Snapshot() == Step(old(Snapshot()), line, parse)
    {
      var j := Replace(Strip(line), DataPrefix, "");
      responseData := responseData + j + "\n";
      if j == DoneMarker {
        return;
      }
      if j != "" {
        var data := parse(j);
        match data
        case Invalid =>
          code := -1;
        case Valid(a) =>
          var content := a.GetOr("");
          if content != "" {
            answer := answer + content;
          }
      }
    }

    /** The `except` clause: the failure is flagged and what was accumulated is kept. */
    method Fail()
      modifies this
      ensures Snapshot() == old(Snapshot()).(code := -1)
    {
      code := -1;
    }

    /** The role-marker strip after the `try` block. */
    method StripRoleMarker()
      modifies this
      ensures Snapshot() == old(Snapshot()).(answer := StripMarker(old(answer)))
    {
      if |answer| >= 2 && (answer[..2] == "0:" || answer[..2] == "1:") {
        answer := Strip(answer[2..]);
      }
    }

    /** handle-Flask.py: an empty final answer turns a status flag that is not yet -1 into -1. */
    method FlagEmptyAnswer()
      modifies this
      ensures Snapshot() == if old(answer) == "" && old(code) != -1 then old(Snapshot()).(code := -1) else old(Snapshot())
    {
      if answer == "" {
        if code != -1 {
          code := -1;
        }
      }
    }
  }

  /** `process_message(query)` against a given upstream exchange and decoder. */
  method ProcessMessage(up: Upstream, parse: string -> Parsed, variant: Variant) returns (answer: string, code: int)
    ensures Processed(answer, code) == Outcome(up, parse, variant)
  {
    var agg := new Aggregator();
    match up {
      case NoResponse =>
        agg.Fail();
      case Response(status, contentType, body, cut) =>
        if status == 200 {
          agg.code := 0;
          if contentType == JsonType {
            if cut {
              agg.Fail();
            } else {
              var doc := parse(Concat(body));
              match doc {
                case Invalid => agg.Fail();
                case Valid(a) => agg.answer := a.GetOr("");
              }
            }
          } else if contentType == StreamType {
            var i := 0;
            while i < |body|
              invariant 0 <= i <= |body|
              invariant agg.Snapshot() == Fold(Start, body[..i], parse)
            {
              assert body[..i + 1][..i] == body[..i];
              agg.FeedLine(body[i], parse);
              i := i + 1;
            }
            assert body[..i] == body;
            if cut {
              agg.Fail();
            }
          } else {
            agg.code := -1;
          }
        } else {
          agg.code := -1;
        }
    }
    agg.StripRoleMarker();
    if variant == Flask {
      agg.FlagEmptyAnswer();
    }
    answer, code := agg.answer, agg.code;
  }

  // ---------------------------------------------------------------- properties of the whole call

  /**
   * A request that raises before any response (a timeout, a refused connection) leaves the
   * `try` through the `except` clause: the empty answer and `code == -1`, in both servers.
   */
  lemma NoResponseFails(parse: string -> Parsed, variant: Variant)
    ensures Outcome(NoResponse, parse, variant) == Processed("", -1)
  {
  }

  /** A status other than 200 gives the empty answer and `code == -1`. */
  lemma NonOkStatusFails(status: int, contentType: string, body: seq<string>, cut: bool,
                         parse: string -> Parsed, variant: Variant)
    requires status != 200
    ensures Outcome(Response(status, contentType, body, cut), parse, variant) == Processed("", -1)
  {
  }

  /** A 200 response that is neither `application/json` nor `text/event-stream` gives the empty answer and `code == -1`. */
  lemma UnknownContentTypeFails(contentType: string, body: seq<string>, cut: bool,
                                parse: string -> Parsed, variant: Variant)
    requires contentType != JsonType && contentType != StreamType
    ensures Outcome(Response(200, contentType, body, cut), parse, variant) == Processed("", -1)
  {
  }

  /**
   * A JSON response: the answer is the document's `answer` field (empty when the key is absent),
   * marker-stripped; a body that does not decode, or cannot be read, goes to the `except` clause.
   */
  lemma JsonResponse(body: seq<string>, cut: bool, parse: string -> Parsed, variant: Variant)
    ensures var out := Outcome(Response(200, JsonType, body, cut), parse, variant);
      && (cut || parse(Concat(body)) == Invalid ==> out == Processed("", -1))
      && (!cut && parse(Concat(body)).Valid? ==>
            out.answer == StripMarker(parse(Concat(body)).answer.GetOr(""))
            && out.code == (if variant == Flask && out.answer == "" then -1 else 0))
  {
  }

  /**
   * An event stream read to its end: the answer is the in-order concatenation of the line
   * contributions, marker-stripped; `code` is -1 exactly when some line is rejected (or, in
   * handle-Flask.py, when the final answer is empty).
   */
  lemma StreamResponse(body: seq<string>, parse: string -> Parsed, variant: Variant)
    ensures var out := Outcome(Response(200, StreamType, body, false), parse, variant);
      && out.answer == StripMarker(Answers(body, parse))
      && out.code == (if AnyRejected(body, parse) || (variant == Flask && out.answer == "") then -1 else 0)
  {
    var st := Fold(Start, body, parse);
    assert Received(Response(200, StreamType, body, false), parse) == st;
    FoldAnswer(Start, body, parse);
    assert st.answer == Answers(body, parse);
    FoldCode(Start, body, parse);
  }

  /**
   * An event stream cut off by an exception keeps what it had accumulated: the answer is the
   * contributions of the lines read before the failure, marker-stripped, and `code` is -1.
   */
  lemma StreamInterrupted(body: seq<string>, parse: string -> Parsed, variant: Variant)
    ensures Outcome(Response(200, StreamType, body, true), parse, variant)
         == Processed(StripMarker(Answers(body, parse)), -1)
  {
    var st := Fold(Start, body, parse);
    assert Received(Response(200, StreamType, body, true), parse) == st.(code := -1);
    FoldAnswer(Start, body, parse);
    assert st.answer == Answers(body, parse);
  }

  /**
   * The two servers return the same answer; handle-Flask.py differs only in forcing `code` to -1
   * when that answer is empty.
   */
  lemma FlaskForcesCodeOnEmpty(up: Upstream, parse: string -> Parsed)
    ensures Outcome(up, parse, Flask).answer == Outcome(up, parse, FastApi).answer
    ensures Outcome(up, parse, Flask).code
         == if Outcome(up, parse, FastApi).answer == "" then -1 else Outcome(up, parse, FastApi).code
    ensures Outcome(up, parse, Flask).answer == "" ==> Outcome(up, parse, Flask).code == -1
  {
  }

  // ---------------------------------------------------------------- line cleaning

  /** A line that starts with `d` and ends in `\n` after non-space text is stripped of that newline only. */
  lemma StripDataLine(body: string)
    requires body != [] && !IsSpace(body[|body| - 1])
    ensures Strip(DataPrefix + body + "\n") == DataPrefix + body
  {
    var line := DataPrefix + body + "\n";
    assert line[0] == 'd';
    assert TrimStart(line) == line;
    assert IsSpace(line[|line| - 1]);
    assert line[..|line| - 1] == DataPrefix + body;
    assert (DataPrefix + body)[|DataPrefix + body| - 1] == body[|body| - 1];
    assert TrimEnd(DataPrefix + body) == DataPrefix + body;
    assert TrimEnd(line) == TrimEnd(DataPrefix + body);
  }

  /**
   * An event-stream line `data: <payload>` is cleaned to its payload, provided the payload ends
   * in non-space text and has no `data: ` of its own.
   */
  lemma CleanDataLine(payload: string)
    requires payload != [] && !IsSpace(payload[|payload| - 1])
    requires forall i :: !OccursAt(payload, DataPrefix, i)
    ensures CleanLine(DataPrefix + payload + "\n") == payload
  {
    StripDataLine(payload);
    assert (DataPrefix + payload)[..|DataPrefix|] == DataPrefix && (DataPrefix + payload)[|DataPrefix|..] == payload;
    ReplaceWithoutOccurrence(payload, DataPrefix, "");
  }

  /** A text without the letter `d` has no `data: ` in it. */
  lemma NoDataWithoutD(s: string)
    requires 'd' !in s
    ensures forall i :: !OccursAt(s, DataPrefix, i)
  {
    assert DataPrefix[0] == 'd';
    forall i | 0 <= i && i + |DataPrefix| <= |s| ensures !OccursAt(s, DataPrefix, i) {
      assert s[i] in s;
      assert s[i..i + |DataPrefix|][0] == s[i];
    }
  }

  /**
   * `replace` works on the whole line, not on its prefix: a `data: ` inside the JSON payload is
   * removed as well, so an answer that mentions it reaches the decoder altered. (No occurrence
   * starts in `a`, the text before it, and `b`, the text after it, has no `data: `.)
   */
  lemma InnerDataRemoved(a: string, b: string)
    requires forall i :: 0 <= i < |a| ==> !OccursAt(a + (DataPrefix + b), DataPrefix, i)
    requires forall i :: !OccursAt(b, DataPrefix, i)
    requires b != [] && !IsSpace(b[|b| - 1])
    ensures CleanLine(DataPrefix + (a + DataPrefix + b) + "\n") == a + b
  {
    var payload := a + DataPrefix + b;
    assert payload[|payload| - 1] == b[|b| - 1];
    StripDataLine(payload);
    assert Replace(DataPrefix + payload, DataPrefix, "") == Replace(payload, DataPrefix, "") by {
      assert (DataPrefix + payload)[..|DataPrefix|] == DataPrefix && (DataPrefix + payload)[|DataPrefix|..] == payload;
    }
    assert Replace(payload, DataPrefix, "") == a + Replace(DataPrefix + b, DataPrefix, "") by {
      assert payload == a + (DataPrefix + b);
      ReplaceSkipsPrefix(a, DataPrefix + b, DataPrefix, "");
    }
    assert Replace(DataPrefix + b, DataPrefix, "") == Replace(b, DataPrefix, "") by {
      assert (DataPrefix + b)[..|DataPrefix|] == DataPrefix && (DataPrefix + b)[|DataPrefix|..] == b;
    }
    ReplaceWithoutOccurrence(b, DataPrefix, "");
  }

  /**
   * A blank event-stream field `data: ` is stripped to `data:` before `replace` runs, so it is
   * not skipped as blank: it reaches the decoder, and when rejected there it sets `code` to -1.
   */
  lemma BlankDataLineReachesDecoder(parse: string -> Parsed)
    requires parse("data:") == Invalid
    ensures CleanLine("data: \n") == "data:"
    ensures Rejected("data: \n", parse)
  {
    var line := "data: \n";
    assert TrimStart(line) == line;
    assert line[..|line| - 1] == "data: ";
    assert "data: "[..5] == "data:";
    assert Strip(line) == "data:";
  }

  /** A `data: <payload>` line whose payload decodes to an answer contributes that answer and is not rejected. */
  lemma DataLineContributes(payload: string, a: string, parse: string -> Parsed)
    requires payload != [] && !IsSpace(payload[|payload| - 1]) && forall i :: !OccursAt(payload, DataPrefix, i)
    requires payload != DoneMarker && parse(payload) == Valid(Some(a))
    ensures Contribution(DataPrefix + payload + "\n", parse) == a
    ensures !Rejected(DataPrefix + payload + "\n", parse)
  {
    CleanDataLine(payload);
  }

  /** The answers of a three-line stream. */
  lemma AnswersOfThree(x: string, y: string, z: string, parse: string -> Parsed)
    ensures Answers([x, y, z], parse) == Contribution(x, parse) + Contribution(y, parse) + Contribution(z, parse)
  {
    var cx, cy, cz := Contribution(x, parse), Contribution(y, parse), Contribution(z, parse);
    assert [z][1..] == [];
    assert Answers([z], parse) == cz + "" == cz;
    assert [y, z][1..] == [z];
    assert Answers([y, z], parse) == cy + cz;
    assert [x, y, z][1..] == [y, z];
    assert Answers([x, y, z], parse) == cx + (cy + cz);
  }

  /** The stream of a typical answer, `a` then `b` then `[DONE]`, aggregates to `"ab"` with `code` 0. */
  lemma StreamExample(parse: string -> Parsed, variant: Variant)
    requires parse("{\"answer\":\"a\"}") == Valid(Some("a")) && parse("{\"answer\":\"b\"}") == Valid(Some("b"))
    ensures Outcome(Response(200, StreamType, [DataPrefix + "{\"answer\":\"a\"}\n", DataPrefix + "{\"answer\":\"b\"}\n",
                                               DataPrefix + DoneMarker + "\n"], false),
                    parse, variant) == Processed("ab", 0)
  {
    var x, y := "{\"answer\":\"a\"}", "{\"answer\":\"b\"}";
    var l0, l1, l2 := DataPrefix + x + "\n", DataPrefix + y + "\n", DataPrefix + DoneMarker + "\n";
    assert DataPrefix + "{\"answer\":\"a\"}\n" == l0 && DataPrefix + "{\"answer\":\"b\"}\n" == l1;
    NoDataWithoutD(x);
    NoDataWithoutD(y);
    DataLineContributes(x, "a", parse);
    DataLineContributes(y, "b", parse);
    assert Contribution(l2, parse) == "" && !Rejected(l2, parse) by {
      NoDataWithoutD(DoneMarker);
      CleanDataLine(DoneMarker);
    }
    assert Answers([l0, l1, l2], parse) == "ab" by {
      AnswersOfThree(l0, l1, l2, parse);
    }
    assert !AnyRejected([l0, l1, l2], parse);
    assert "ab"[..2] == "ab";
    StreamResponse([l0, l1, l2], parse, variant);
  }

  /** A JSON document whose answer is `"0:hello"` yields `"hello"`. */
  lemma JsonMarkerExample(body: string, parse: string -> Parsed, variant: Variant)
    requires parse(body) == Valid(Some("0:hello"))
    ensures Outcome(Response(200, JsonType, [body], false), parse, variant) == Processed("hello", 0)
  {
    assert [body][1..] == [];
    assert Concat([body]) == body;
    assert Received(Response(200, JsonType, [body], false), parse) == State("0:hello", "", 0);
    StripMarkerOfMarked("hello");
  }
}
