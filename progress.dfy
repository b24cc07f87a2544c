/**
 * The attempt counter behind the "View Progress" option: how many answers
 * were checked and how many of them were right.
 */
module Progress {

  /** What the progress display shows: nothing yet, or correct/total with the accuracy in percent. */
  datatype Report =
    | NoProgress
    | Shown(correct: nat, total: nat, accuracy: real)

  class ProgressTracker {
    var totalAttempts: nat
    var correctAttempts: nat

    /** No more answers can have been right than were checked. */
    ghost predicate Valid()
      reads this
    {
      correctAttempts <= totalAttempts
    }

    /** A fresh tracker has seen no attempts. */
    constructor ()
      ensures Valid()
      ensures totalAttempts == 0 && correctAttempts == 0
    {
      totalAttempts := 0;
      correctAttempts := 0;
    }

    /** Counts one more attempt, and one more correct attempt when it was right. */
    method RecordAttempt(correct: bool)
      requires Valid()
      modifies this
      ensures Valid()
      ensures totalAttempts == old(totalAttempts) + 1
      ensures correctAttempts == if correct then old(correctAttempts) + 1 else old(correctAttempts)
    {
      totalAttempts := totalAttempts + 1;
      if correct {
        correctAttempts := correctAttempts + 1;
      }
    }

    /**
     * The progress report. With no attempts there is nothing to divide by and
     * the report says so; otherwise it carries both counters and the share of
     * correct attempts in percent, which lies between 0 and 100.
     */
    method DisplayProgress() returns (report: Report)
      requires Valid()
      ensures report.NoProgress? <==> totalAttempts == 0
      ensures report.Shown? ==>
        && report.correct == correctAttempts && report.total == totalAttempts
        && report.accuracy * totalAttempts as real == 100.0 * correctAttempts as real
        && 0.0 <= report.accuracy <= 100.0
    {
      if totalAttempts == 0 {
        report := NoProgress;
      } else {
        var accuracy := (correctAttempts as real / totalAttempts as real) * 100.0;
        report := Shown(correctAttempts, totalAttempts, accuracy);
      }
    }
  }

  /** Three attempts, two of them right, read as 2/3 correct at two thirds of 100 percent. */
  method ExampleSession() returns (report: Report)
    ensures report.Shown? && report.correct == 2 && report.total == 3
    ensures report.accuracy * 3.0 == 200.0
  {
    var tracker := new ProgressTracker();
    tracker.RecordAttempt(true);
    tracker.RecordAttempt(false);
    tracker.RecordAttempt(true);
    report := tracker.DisplayProgress();
  }
}
