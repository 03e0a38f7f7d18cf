/**
  The console progress reporter of the command-line classifier. The worker reports the
  number of steps and sub-steps and each step and sub-step reached; the reporter prints a
  progress line whenever the sub-step progress, in tenths, has grown. What the reporter
  prints is kept as a sequence of console lines.
*/
module Progress {
  import opened Arithmetic

  /** C++ integer division: the quotient is truncated toward zero. */
  function CDiv(a: int, b: int): (q: int)
    requires b != 0
    ensures var r := a - q * b;
            (if b < 0 then -b else b) > (if r < 0 then -r else r) &&
            (r == 0 || (r < 0 <==> a < 0))
  {
    if a >= 0 then
      (if b > 0 then a / b else -(a / -b))
    else
      (if b > 0 then -((-a) / b) else (-a) / (-b))
  }

  /**
    The sub-step progress in tenths: 10 * subStep / subStepCount, and 0 when the count is 0.
    It lies in 0..10 whenever 0 <= subStep <= subStepCount.
  */
  function SubProgress(subStep: int, subStepCount: int): (p: int)
    ensures subStepCount == 0 ==> p == 0
    ensures 0 <= subStep <= subStepCount ==> 0 <= p <= 10
  {
    if subStepCount != 0 then
      TenthsInRange(subStep, subStepCount);
      CDiv(10 * subStep, subStepCount)
    else 0
  }

  lemma TenthsInRange(s: int, count: int)
    requires count != 0
    ensures 0 <= s <= count ==> 0 <= CDiv(10 * s, count) <= 10
  {
    if 0 <= s <= count {
      DivMonotone(10 * s, 10 * count, count);
      assert (10 * count) / count == 10;
    }
  }

  /** With a fixed positive count, the progress never goes down as the sub-step grows. */
  lemma SubProgressMonotone(s1: int, s2: int, count: int)
    requires 0 <= s1 <= s2 && 0 < count
    ensures SubProgress(s1, count) <= SubProgress(s2, count)
  {
    assert SubProgress(s1, count) == (10 * s1) / count;
    assert SubProgress(s2, count) == (10 * s2) / count;
    DivMonotone(10 * s1, 10 * s2, count);
  }

  lemma DivMonotone(a: int, b: int, d: int)
    requires 0 <= a <= b && 0 < d
    ensures a / d <= b / d
  {
    if a / d > b / d {
      MulMonotone(d, b / d + 1, a / d);
    }
  }

  /** How a progress line ends: a carriage return while sub-steps remain, a newline otherwise. */
  datatype LineEnd = CarriageReturn | Newline

  datatype ConsoleLine =
    | ProgressLine(step: int, stepCount: int, subStep: int, subStepCount: int, end: LineEnd)
    | FinishLine
    | ErrorLine(message: string)

  /**
    The number of progress lines printed for the sub-step reports `reports` (each a
    (sub-step, sub-step count) pair), starting from bucket `current`.
  */
  function LinesPrinted(current: int, reports: seq<(int, int)>): nat
    decreases |reports|
  {
    if |reports| == 0 then 0
    else
      var p := SubProgress(reports[0].0, reports[0].1);
      if current < p then 1 + LinesPrinted(p, reports[1..]) else LinesPrinted(current, reports[1..])
  }

  /** The reported sub-steps all lie within their counts. */
  predicate InRange(reports: seq<(int, int)>)
  {
    forall i :: 0 <= i < |reports| ==> 0 <= reports[i].0 <= reports[i].1
  }

  /** From bucket `current` at least -1, at most 10 - current further lines are printed. */
  lemma {:induction false} LinesPrintedBound(current: int, reports: seq<(int, int)>)
    requires -1 <= current && InRange(reports)
    ensures LinesPrinted(current, reports) <= if current < 10 then 10 - current else 0
    decreases |reports|
  {
    if |reports| > 0 {
      var p := SubProgress(reports[0].0, reports[0].1);
      assert 0 <= reports[0].0 <= reports[0].1;
      assert InRange(reports[1..]) by {
        forall i | 0 <= i < |reports[1..]|
          ensures 0 <= reports[1..][i].0 <= reports[1..][i].1
        {
          assert reports[1..][i] == reports[i + 1];
        }
      }
      if current < p {
        LinesPrintedBound(p, reports[1..]);
      } else {
        LinesPrintedBound(current, reports[1..]);
      }
    }
  }

  /** Between two showNextStep calls, which reset the bucket to -1, at most 11 lines are printed. */
  lemma AtMostElevenLinesPerStep(reports: seq<(int, int)>)
    requires InRange(reports)
    ensures LinesPrinted(-1, reports) <= 11
  {
    LinesPrintedBound(-1, reports);
  }

  /**
    ClassifierApplication's progress state. The C++ constructor leaves the five counters
    uninitialised; here the constructor takes their initial values.
  */
  class ClassifierApplication {
    var stepCount: int
    var subStepCount: int
    var step: int
    var subStep: int
    var currentSubProgress: int
    var console: seq<ConsoleLine>

    constructor (stepCount0: int, subStepCount0: int, step0: int, subStep0: int, currentSubProgress0: int)
      ensures stepCount == stepCount0 && subStepCount == subStepCount0 && step == step0
      ensures subStep == subStep0 && currentSubProgress == currentSubProgress0
      ensures console == []
    {
      stepCount := stepCount0;
      subStepCount := subStepCount0;
      step := step0;
      subStep := subStep0;
      currentSubProgress := currentSubProgress0;
      console := [];
    }

    /** The line printProgress would print in the current state. */
    function ProgressLineNow(): (line: ConsoleLine)
      reads this
      ensures line.ProgressLine? && line.step == step && line.subStep == subStep
      ensures line.stepCount == stepCount && line.subStepCount == subStepCount
      ensures line.end == CarriageReturn <==> subStep < subStepCount
    {
      ProgressLine(step, stepCount, subStep, subStepCount, if subStep < subStepCount then CarriageReturn else Newline)
    }

    method SetStepCount(n: int)
      modifies this`stepCount
      ensures stepCount == n
      ensures subStepCount == old(subStepCount) && step == old(step) && subStep == old(subStep)
      ensures currentSubProgress == old(currentSubProgress) && console == old(console)
    {
      stepCount := n;
    }

    method SetSubStepCount(n: int)
      modifies this`subStepCount
      ensures subStepCount == n
      ensures stepCount == old(stepCount) && step == old(step) && subStep == old(subStep)
      ensures currentSubProgress == old(currentSubProgress) && console == old(console)
    {
      subStepCount := n;
    }

    /** Starts step `s`: the next sub-step report prints whatever its bucket. */
    method ShowNextStep(s: int)
      modifies this`step, this`currentSubProgress
      ensures step == s && currentSubProgress == -1
      ensures stepCount == old(stepCount) && subStepCount == old(subStepCount) && subStep == old(subStep)
      ensures console == old(console)
    {
      step := s;
      currentSubProgress := -1;
    }

    /** printProgress: one progress line, ended by a carriage return while sub-steps remain. */
    method PrintProgress()
      modifies this`console
      ensures console == old(console) + [ProgressLineNow()]
    {
      var end := if subStep < subStepCount then CarriageReturn else Newline;
      console := console + [ProgressLine(step, stepCount, subStep, subStepCount, end)];
    }

    /**
      Records sub-step `s` and prints a line exactly when its bucket exceeds the last one
      printed; the bucket never decreases.
    */
    method ShowNextSubStep(s: int)
      modifies this`subStep, this`currentSubProgress, this`console
      ensures subStep == s
      ensures var p := SubProgress(s, subStepCount);
              if old(currentSubProgress) < p then
                currentSubProgress == p && console == old(console) + [ProgressLineNow()]
              else
                currentSubProgress == old(currentSubProgress) && console == old(console)
      ensures currentSubProgress >= old(currentSubProgress)
      ensures |console| == |old(console)| + LinesPrinted(old(currentSubProgress), [(s, subStepCount)])
      ensures stepCount == old(stepCount) && subStepCount == old(subStepCount) && step == old(step)
    {
      subStep := s;
      var progress := 0;
      if subStepCount != 0 {
        progress := CDiv(10 * subStep, subStepCount);
      }
      if currentSubProgress < progress {
        currentSubProgress := progress;
        PrintProgress();
      }
    }

    /**
      One step as the worker reports it: showNextStep(s), then for each report (sub-step,
      sub-step count) a setSubStepCount followed by a showNextSubStep. The console grows by
      exactly the lines `LinesPrinted` counts from the reset bucket, so by at most 11.
    */
    method RunStep(s: int, reports: seq<(int, int)>)
      modifies this`step, this`currentSubProgress, this`subStep, this`subStepCount, this`console
      ensures step == s && stepCount == old(stepCount)
      ensures |console| == |old(console)| + LinesPrinted(-1, reports)
      ensures InRange(reports) ==> |console| <= |old(console)| + 11
      ensures console[..|old(console)|] == old(console)
      ensures |reports| > 0 ==> subStep == reports[|reports| - 1].0 && subStepCount == reports[|reports| - 1].1
      ensures |reports| == 0 ==> subStep == old(subStep) && subStepCount == old(subStepCount)
    {
      ghost var c0 := console;
      ShowNextStep(s);
      var k := 0;
      while k < |reports|
        invariant 0 <= k <= |reports|
        invariant step == s && stepCount == old(stepCount)
        invariant |c0| <= |console| && console[..|c0|] == c0
        invariant |console| + LinesPrinted(currentSubProgress, reports[k..]) == |c0| + LinesPrinted(-1, reports)
        invariant k > 0 ==> subStep == reports[k - 1].0 && subStepCount == reports[k - 1].1
        invariant k == 0 ==> subStep == old(subStep) && subStepCount == old(subStepCount)
      {
        ghost var before := currentSubProgress;
        ghost var len := |console|;
        SetSubStepCount(reports[k].1);
        ShowNextSubStep(reports[k].0);
        assert reports[k..][0] == reports[k] && reports[k..][1..] == reports[k + 1..];
        assert LinesPrinted(before, reports[k..]) ==
               LinesPrinted(before, [reports[k]]) + LinesPrinted(currentSubProgress, reports[k + 1..]);
        k := k + 1;
      }
      assert reports[k..] == [];
      if InRange(reports) {
        AtMostElevenLinesPerStep(reports);
      }
    }

    method ShowFinish()
      modifies this`console
      ensures console == old(console) + [FinishLine]
    {
      console := console + [FinishLine];
    }

    method ShowError(message: string)
      modifies this`console
      ensures console == old(console) + [ErrorLine(message)]
    {
      console := console + [ErrorLine(message)];
    }
  }
}
