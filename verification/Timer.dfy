/** The start/stop guard of the typing-speed timer.

    The timer is either stopped or running. Pressing start on a stopped
    timer starts it; pressing it on a running timer is refused with an error
    alert. Pressing stop on a running timer stops it; pressing it on a
    stopped timer is refused with an error alert. A refused press changes
    nothing. The clock readings and the words-per-minute figure shown on a
    successful stop are not part of this model.
 */
module Timer {

  datatype TimerState = Stopped | Running

  datatype TimerError = AlreadyRunning | NotRunning

  /** The text of the error alert. */
  function Message(e: TimerError): string {
    match e
    case AlreadyRunning => "Timer is already running."
    case NotRunning => "Timer is not running."
  }

  datatype Outcome = Accepted | Refused(error: TimerError)

  datatype Press = StartPress | StopPress

  /** startTimer() */
  function Start(t: TimerState): (r: (TimerState, Outcome))
    ensures r.1 == Accepted <==> t == Stopped
    ensures r.0 == Running
    ensures r.1.Refused? ==> r.1.error == AlreadyRunning
  {
    match t
    case Stopped => (Running, Accepted)
    case Running => (t, Refused(AlreadyRunning))
  }

  /** stopTimer() */
  function Stop(t: TimerState): (r: (TimerState, Outcome))
    ensures r.1 == Accepted <==> t == Running
    ensures r.0 == Stopped
    ensures r.1.Refused? ==> r.1.error == NotRunning
  {
    match t
    case Running => (Stopped, Accepted)
    case Stopped => (t, Refused(NotRunning))
  }

  function Step(t: TimerState, p: Press): (TimerState, Outcome) {
    match p
    case StartPress => Start(t)
    case StopPress => Stop(t)
  }

  /** A refused press leaves the timer as it was; an accepted press always
      moves it to the other state. */
  lemma StepFacts(t: TimerState, p: Press)
    ensures Step(t, p).1.Refused? ==> Step(t, p).0 == t
    ensures Step(t, p).1 == Accepted ==> Step(t, p).0 != t
    ensures Step(t, p).1 == Accepted <==> (p == StartPress <==> t == Stopped)
  {
  }

  /** The state after a sequence of presses. */
  function Run(t: TimerState, ps: seq<Press>): TimerState {
    if |ps| == 0 then t else Step(Run(t, ps[..|ps| - 1]), ps[|ps| - 1]).0
  }

  /** The presses of a sequence that the timer accepted, in order. */
  function AcceptedPresses(t: TimerState, ps: seq<Press>): seq<Press> {
    if |ps| == 0 then []
    else
      var before := ps[..|ps| - 1];
      var p := ps[|ps| - 1];
      AcceptedPresses(t, before)
        + (if Step(Run(t, before), p).1 == Accepted then [p] else [])
  }

  /** From a stopped timer, whatever the user presses, the accepted presses
      alternate start, stop, start, ... and the timer is running exactly
      when an odd number of presses were accepted. */
  lemma {:induction false} AcceptedAlternate(ps: seq<Press>)
    ensures var acc := AcceptedPresses(Stopped, ps);
      && (forall i :: 0 <= i < |acc| ==> acc[i] == if i % 2 == 0 then StartPress else StopPress)
      && (Run(Stopped, ps) == Running <==> |acc| % 2 == 1)
    decreases |ps|
  {
    if |ps| > 0 {
      var before := ps[..|ps| - 1];
      AcceptedAlternate(before);
      StepFacts(Run(Stopped, before), ps[|ps| - 1]);
    }
  }
}
