/**
 * The deterministic part of `saveQuizResult` (actions/interview.js):
 * grading answers by position, selecting the wrong ones, and turning the tip
 * reply into a tip.
 */
module Grading {
  import opened Wrappers
  import opened FenceText
  import opened Records
  import opened Replies

  /** `answers[index]`: `undefined` past the end of the array. */
  function AnswerAt(answers: seq<JsValue>, i: nat): JsValue {
    if i < |answers| then answers[i] else Undefined
  }

  /** The graded entry for one question and the answer given at its position. */
  function GradeOne(q: Question, given: JsValue): QuestionResult {
    QuestionResult(q.question, q.correctAnswer, given, q.correctAnswer == given, q.explanation)
  }

  /** `questions.map((q, index) => ...)` for the questions from position `offset` on. */
  function GradeFrom(qs: seq<Question>, answers: seq<JsValue>, offset: nat): (r: seq<QuestionResult>)
    ensures |r| == |qs|
    ensures forall i :: 0 <= i < |qs| ==> r[i] == GradeOne(qs[i], AnswerAt(answers, offset + i))
    decreases |qs|
  {
    if qs == [] then []
    else [GradeOne(qs[0], AnswerAt(answers, offset))] + GradeFrom(qs[1..], answers, offset + 1)
  }

  /**
   * The graded results: one entry per question, in question order, paired with
   * the answer at the same index.  An entry within the answers is correct
   * exactly when its answer equals the correct answer; an entry past the end
   * is correct exactly when the question has no correct answer either
   * (`undefined === undefined`).
   */
  function Grade(qs: seq<Question>, answers: seq<JsValue>): (r: seq<QuestionResult>)
    ensures |r| == |qs|
    ensures forall i :: 0 <= i < |qs| ==>
      && r[i].question == qs[i].question
      && r[i].answer == qs[i].correctAnswer
      && r[i].explanation == qs[i].explanation
      && (i < |answers| ==> r[i].userAnswer == answers[i])
      && (i >= |answers| ==> r[i].userAnswer == Undefined)
      && (r[i].isCorrect <==>
            if i < |answers| then answers[i] == qs[i].correctAnswer
            else qs[i].correctAnswer == Undefined)
  {
    GradeFrom(qs, answers, 0)
  }

  /** `questionResults.filter((q) => !q.isCorrect)`. */
  function WrongAnswers(rs: seq<QuestionResult>): seq<QuestionResult>
    decreases |rs|
  {
    if rs == [] then []
    else (if rs[0].isCorrect then [] else [rs[0]]) + WrongAnswers(rs[1..])
  }

  /** Every kept entry is a wrong entry of the input. */
  lemma {:induction false} WrongAnswersSpec(rs: seq<QuestionResult>)
    ensures |WrongAnswers(rs)| <= |rs|
    ensures forall k :: 0 <= k < |WrongAnswers(rs)| ==>
      !WrongAnswers(rs)[k].isCorrect && WrongAnswers(rs)[k] in rs
    decreases |rs|
  {
    if rs != [] {
      WrongAnswersSpec(rs[1..]);
      var head: seq<QuestionResult> := if rs[0].isCorrect then [] else [rs[0]];
      var w := WrongAnswers(rs[1..]);
      assert WrongAnswers(rs) == head + w;
      forall k | 0 <= k < |head + w| ensures !(head + w)[k].isCorrect && (head + w)[k] in rs {
        if k >= |head| {
          assert (head + w)[k] == w[k - |head|];
          assert w[k - |head|] in rs[1..];
        }
      }
    }
  }

  /**
   * Reference definition of the wrong entries: their positions, in
   * increasing order.
   */
  function WrongPositions(rs: seq<QuestionResult>): seq<nat>
    decreases |rs|
  {
    if rs == [] then []
    else
      var n := |rs| - 1;
      WrongPositions(rs[..n]) + (if rs[n].isCorrect then [] else [n])
  }

  /**
   * The reference positions are strictly increasing, each one holds a wrong
   * entry, and every wrong entry's position is listed.
   */
  lemma {:induction false} WrongPositionsSpec(rs: seq<QuestionResult>)
    ensures forall k :: 0 <= k < |WrongPositions(rs)| ==>
      WrongPositions(rs)[k] < |rs| && !rs[WrongPositions(rs)[k]].isCorrect
    ensures forall k, l :: 0 <= k < l < |WrongPositions(rs)| ==>
      WrongPositions(rs)[k] < WrongPositions(rs)[l]
    ensures forall i :: 0 <= i < |rs| && !rs[i].isCorrect ==> i in WrongPositions(rs)
    decreases |rs|
  {
    if rs != [] {
      var n := |rs| - 1;
      var front := rs[..n];
      WrongPositionsSpec(front);
      var p := WrongPositions(front);
      var tail: seq<nat> := if rs[n].isCorrect then [] else [n];
      var P := p + tail;
      assert WrongPositions(rs) == P;
      forall k | 0 <= k < |P| ensures P[k] < |rs| && !rs[P[k]].isCorrect {
        if k < |p| {
          assert P[k] == p[k] && front[p[k]] == rs[p[k]];
        }
      }
      forall i | 0 <= i < |rs| && !rs[i].isCorrect ensures i in P {
        if i < n {
          assert front[i] == rs[i];
        }
      }
    }
  }

  lemma {:induction false} WrongAnswersAppend(a: seq<QuestionResult>, b: seq<QuestionResult>)
    ensures WrongAnswers(a + b) == WrongAnswers(a) + WrongAnswers(b)
    decreases |a|
  {
    if a == [] {
      assert a + b == b;
    } else {
      assert (a + b)[0] == a[0];
      assert (a + b)[1..] == a[1..] + b;
      WrongAnswersAppend(a[1..], b);
    }
  }

  /**
   * The filter keeps exactly the wrong entries, in their original order:
   * its k-th element is the entry at the k-th wrong position.
   */
  lemma {:induction false} WrongAnswersInOrder(rs: seq<QuestionResult>)
    ensures |WrongAnswers(rs)| == |WrongPositions(rs)|
    ensures forall k :: 0 <= k < |WrongPositions(rs)| ==>
      WrongPositions(rs)[k] < |rs| && WrongAnswers(rs)[k] == rs[WrongPositions(rs)[k]]
    decreases |rs|
  {
    if rs != [] {
      var n := |rs| - 1;
      var front := rs[..n];
      WrongAnswersInOrder(front);
      var w, p := WrongAnswers(front), WrongPositions(front);
      var tailW: seq<QuestionResult> := if rs[n].isCorrect then [] else [rs[n]];
      var tailP: seq<nat> := if rs[n].isCorrect then [] else [n];
      assert rs == front + [rs[n]];
      WrongAnswersAppend(front, [rs[n]]);
      assert WrongAnswers([rs[n]]) == tailW by {
        assert [rs[n]][1..] == [];
      }
      var W, P := WrongAnswers(rs), WrongPositions(rs);
      assert W == w + tailW;
      assert P == p + tailP;
      forall k | 0 <= k < |P| ensures P[k] < |rs| && W[k] == rs[P[k]] {
        if k < |p| {
          assert W[k] == w[k] && P[k] == p[k];
          assert w[k] == front[p[k]];
        }
      }
    }
  }

  /** No wrong entry exactly when every entry is correct. */
  lemma {:induction false} NoWrongAnswersIffAllCorrect(rs: seq<QuestionResult>)
    ensures WrongAnswers(rs) == [] <==> forall i :: 0 <= i < |rs| ==> rs[i].isCorrect
    decreases |rs|
  {
    if rs != [] {
      NoWrongAnswersIffAllCorrect(rs[1..]);
      assert forall i :: 1 <= i < |rs| ==> rs[1..][i - 1] == rs[i];
    }
  }

  /**
   * `completion.choices[0]?.message?.content?.trim() || null`: a failed call,
   * a missing content and an all-blank content all give no tip.
   */
  function TipFromReply(c: Completion): (tip: Option<string>)
    ensures c.CallFailed? ==> tip == None
    ensures tip.Some? ==> tip.value != [] && Trimmed(tip.value)
    ensures tip.Some? ==> c.Reply? && c.content.Some? && tip.value == Trim(c.content.value)
    ensures c.Reply? && c.content.Some? && Trim(c.content.value) != [] ==>
      tip == Some(Trim(c.content.value))
  {
    match c
    case CallFailed => None
    case Reply(content) =>
      if content.None? then None
      else
        var t := Trim(content.value);
        TrimSpec(content.value);
        if t == [] then None else Some(t)
  }
}
