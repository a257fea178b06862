/** The key-press debouncer of Assets/Scripts/InputAssist.cs: a Stopper answers true only on
    the first frame of a press, that is on a rising edge of its signal. */
module InputAssist {

  class Stopper {
    /** Whether the signal was on at the previous call. */
    var lockVar: bool

    constructor ()
      ensures !lockVar
    {
      lockVar := false;
    }

    /** Answers true exactly when the signal is on now and was off at the previous call; the
        lock then follows the signal. */
    method Update(signal: bool) returns (r: bool)
      modifies this
      ensures lockVar == signal
      ensures r == (signal && !old(lockVar))
      ensures Answers(old(lockVar), [signal]) == [r]
    {
      if signal {
        if lockVar {
          return false;
        } else {
          lockVar := true;
          return true;
        }
      } else {
        lockVar := false;
        return false;
      }
    }
  }

  /** The answers of a Stopper whose lock starts at `lock` to the signals of successive calls:
      each call compares the signal with the lock and then sets the lock to the signal. So it
      answers true at call i exactly when the signal rises there: on at call i and off at call
      i - 1 (for the first call, off meaning the lock it started with is off). */
  function Answers(lock: bool, signals: seq<bool>): (rs: seq<bool>)
    ensures |rs| == |signals|
    ensures |signals| > 0 ==> rs[0] == (signals[0] && !lock)
    ensures forall i {:trigger rs[i]} :: 0 < i < |signals| ==> rs[i] == (signals[i] && !signals[i - 1])
    decreases |signals|
  {
    if signals == [] then []
    else
      var tail := signals[1..];
      var rest := Answers(signals[0], tail);
      assert forall j {:trigger rest[j]} :: 0 <= j < |rest| ==> tail[j] == signals[j + 1];
      [signals[0] && !lock] + rest
  }

  /** However long the signal stays on, the Stopper answers true at most once in a row. */
  lemma NoTwoInARow(signals: seq<bool>, i: nat)
    requires i + 1 < |signals|
    ensures !(Answers(false, signals)[i] && Answers(false, signals)[i + 1])
  {
  }

  /** The Stopper never answers true while the signal is off. */
  lemma OnlyWhenPressed(lock: bool, signals: seq<bool>, i: nat)
    requires i < |signals|
    ensures Answers(lock, signals)[i] ==> signals[i]
  {
  }

  /** Feeding the calls in two batches gives the same answers as feeding them at once, the
      second batch starting from the lock the first one left. */
  lemma {:induction false} AnswersAppend(lock: bool, s: seq<bool>, t: seq<bool>)
    requires s != []
    ensures Answers(lock, s + t) == Answers(lock, s) + Answers(s[|s| - 1], t)
    decreases |s|
  {
    if |s| == 1 {
      assert (s + t)[1..] == t;
    } else {
      assert (s + t)[1..] == s[1..] + t;
      AnswersAppend(s[0], s[1..], t);
    }
  }
}
