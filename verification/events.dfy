/** What the installer shows its observer: progress updates with a status
    line, titled error and success notifications, and the pauses it takes
    (`time.Sleep`), recorded in the order they happen. */
module Events {

  datatype Event =
    | Progress(percent: int, status: string)
    | ErrorNote(title: string)
    | SuccessNote(title: string)
    | Slept(seconds: nat)

  /** The percentages of the progress updates in `evs`, in order. */
  function Percentages(evs: seq<Event>): seq<int>
    decreases |evs|
  {
    if |evs| == 0 then []
    else (if evs[0].Progress? then [evs[0].percent] else []) + Percentages(evs[1..])
  }

  predicate NoProgress(evs: seq<Event>) {
    forall i :: 0 <= i < |evs| ==> !evs[i].Progress?
  }

  /** Pauses of the given lengths, in order. */
  function Sleeps(delays: seq<nat>): (evs: seq<Event>)
    ensures |evs| == |delays|
    ensures forall i :: 0 <= i < |delays| ==> evs[i] == Slept(delays[i])
  {
    seq(|delays|, i requires 0 <= i < |delays| => Slept(delays[i]))
  }

  lemma {:induction false} PercentagesAppend(a: seq<Event>, b: seq<Event>)
    ensures Percentages(a + b) == Percentages(a) + Percentages(b)
    decreases |a|
  {
    if |a| > 0 {
      assert (a + b)[1..] == a[1..] + b;
      PercentagesAppend(a[1..], b);
    } else {
      assert a + b == b;
    }
  }

  lemma {:induction false} PercentagesOfNotes(evs: seq<Event>)
    requires NoProgress(evs)
    ensures Percentages(evs) == []
    decreases |evs|
  {
    if |evs| > 0 {
      PercentagesOfNotes(evs[1..]);
    }
  }

  /** Appending one progress update followed by notes and pauses adds exactly
      that update's percentage. */
  lemma ProgressThenNotes(t: seq<Event>, p: int, msg: string, notes: seq<Event>)
    requires NoProgress(notes)
    ensures Percentages(t + [Progress(p, msg)] + notes) == Percentages(t) + [p]
  {
    PercentagesAppend(t + [Progress(p, msg)], notes);
    PercentagesAppend(t, [Progress(p, msg)]);
    PercentagesOfNotes(notes);
    assert Percentages([Progress(p, msg)]) == [p];
  }

  /** How often `e` occurs in `evs`. */
  function Occurrences(evs: seq<Event>, e: Event): nat
    decreases |evs|
  {
    if |evs| == 0 then 0
    else (if evs[0] == e then 1 else 0) + Occurrences(evs[1..], e)
  }

  /** Counting occurrences agrees with the multiplicity in the multiset of
      the trace. */
  lemma {:induction false} OccurrencesIsMultiplicity(evs: seq<Event>, e: Event)
    ensures Occurrences(evs, e) == multiset(evs)[e]
    decreases |evs|
  {
    if |evs| > 0 {
      OccurrencesIsMultiplicity(evs[1..], e);
      assert evs == [evs[0]] + evs[1..];
    }
  }

  lemma {:induction false} OccurrencesAppend(a: seq<Event>, b: seq<Event>, e: Event)
    ensures Occurrences(a + b, e) == Occurrences(a, e) + Occurrences(b, e)
    decreases |a|
  {
    if |a| > 0 {
      assert (a + b)[1..] == a[1..] + b;
      OccurrencesAppend(a[1..], b, e);
    } else {
      assert a + b == b;
    }
  }

  lemma {:induction false} OccurrencesOfAbsent(evs: seq<Event>, e: Event)
    requires e !in evs
    ensures Occurrences(evs, e) == 0
    decreases |evs|
  {
    if |evs| > 0 {
      assert e != evs[0];
      OccurrencesOfAbsent(evs[1..], e);
    }
  }
}
