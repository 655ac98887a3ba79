/** The line format of libee's internal event representation, and what a run of lines means. */
module IntLines {
  import opened Bytes
  import opened Seqs
  import opened Fields
  import opened Events

  const HASH: byte := 0x23

  datatype Line = Comment | NewEvent | NewField(name: bytes) | Value(v: bytes) | Malformed

  /** A type letter, a colon, and the rest of the line. */
  function Classify(ln: bytes): Line {
    if |ln| < 2 then Malformed
    else if ln[0] !in {HASH, LOWER_E, LOWER_F, 0x76} || ln[1] != COLON then Malformed
    else if ln[0] == HASH then Comment
    else if ln[0] == LOWER_E then NewEvent
    else if ln[0] == LOWER_F then NewField(ln[2..])
    else Value(ln[2..])
  }

  /** A line is written as its letter, a colon and a text, which a comment and an event line do not use. */
  ghost predicate Written(ln: bytes, line: Line) {
    match line
    case Comment => exists rest: bytes :: ln == [HASH, COLON] + rest
    case NewEvent => exists rest: bytes :: ln == [LOWER_E, COLON] + rest
    case NewField(name) => ln == [LOWER_F, COLON] + name
    case Value(v) => ln == [0x76, COLON] + v
    case Malformed => false
  }

  /** A line is taken for what it is written as, and for malformed if and only if it is written as nothing. */
  lemma {:induction false} ClassifiedAs(ln: bytes, line: Line)
    ensures line != Malformed ==> (Classify(ln) == line <==> Written(ln, line))
    ensures Classify(ln) == Malformed <==> forall l :: !Written(ln, l)
  {
    if |ln| >= 2 {
      assert ln == [ln[0], ln[1]] + ln[2..];
    }
    var own := Classify(ln);
    assert own != Malformed ==> Written(ln, own);
    forall l | Written(ln, l)
      ensures Classify(ln) == l
    {
      WrittenOnce(ln, l);
    }
  }

  lemma {:induction false} WrittenOnce(ln: bytes, line: Line)
    requires Written(ln, line)
    ensures Classify(ln) == line
  {
    match line
    case Comment =>
      var rest: bytes :| ln == [HASH, COLON] + rest;
    case NewEvent =>
      var rest: bytes :| ln == [LOWER_E, COLON] + rest;
    case NewField(name) => assert ln[2..] == name;
    case Value(v) => assert ln[2..] == v;
    case Malformed =>
  }

  function ClassifyAll(lines: seq<bytes>): (ls: seq<Line>)
    ensures |ls| == |lines| && forall i :: 0 <= i < |ls| ==> ls[i] == Classify(lines[i])
  {
    seq(|lines|, i requires 0 <= i < |lines| => Classify(lines[i]))
  }

  // ---------- the state machine ----------

  /** An event that is still open: its finished fields, and the field that is still open. */
  datatype Open = Open(fields: seq<Record>, field: Option<Record>)

  datatype State = State(delivered: seq<seq<Record>>, open: Option<Open>)

  const START := State([], None)

  /** The fields of an open event, the open field last. */
  function Closed(o: Open): seq<Record> {
    o.fields + (if o.field.Some? then [o.field.value] else [])
  }

  datatype Stepped = Next(st: State) | Refused(code: int)

  function Step(st: State, line: Line): Stepped {
    match line
    case Comment => Next(st)
    case NewEvent =>
      Next(State(st.delivered + (if st.open.Some? then [Closed(st.open.value)] else []), Some(Open([], None))))
    case NewField(name) =>
      if st.open.None? then Refused(EE_INVLDFMT)
      else Next(State(st.delivered, Some(Open(Closed(st.open.value), Some(Record(name, []))))))
    case Value(v) =>
      if st.open.None? || st.open.value.field.None? then Refused(EE_INVLDFMT)
      else
        var rec := st.open.value.field.value;
        if |rec.values| == MAX_VALS_PER_FIELD then Refused(EE_TOOMANYVALUES)
        else Next(State(st.delivered, Some(Open(st.open.value.fields, Some(Record(rec.name, rec.values + [v]))))))
    case Malformed => Refused(EE_INVLDFMT)
  }

  /** The state after the lines, or the state at the first line that is refused. */
  datatype Outcome = Done(st: State) | Stopped(st: State, at: nat, code: int)

  function Run(ls: seq<Line>): Outcome {
    if ls == [] then Done(START)
    else
      var r := Run(ls[..|ls| - 1]);
      if r.Stopped? then r
      else
        var n := Step(r.st, ls[|ls| - 1]);
        if n.Next? then Done(n.st) else Stopped(r.st, |ls| - 1, n.code)
  }

  /** End of input delivers the open event. */
  function Finish(st: State): seq<seq<Record>> {
    st.delivered + (if st.open.Some? then [Closed(st.open.value)] else [])
  }

  // ---------- the lines that say what a state holds ----------

  function ValueLines(vs: seq<bytes>): seq<Line> {
    if vs == [] then [] else ValueLines(vs[..|vs| - 1]) + [Value(vs[|vs| - 1])]
  }

  function FieldLines(rec: Record): seq<Line> {
    [NewField(rec.name)] + ValueLines(rec.values)
  }

  function FieldsLines(recs: seq<Record>): seq<Line> {
    if recs == [] then [] else FieldsLines(recs[..|recs| - 1]) + FieldLines(recs[|recs| - 1])
  }

  function EventLines(recs: seq<Record>): seq<Line> {
    [NewEvent] + FieldsLines(recs)
  }

  function EventsLines(es: seq<seq<Record>>): seq<Line> {
    if es == [] then [] else EventsLines(es[..|es| - 1]) + EventLines(es[|es| - 1])
  }

  function WithoutComments(ls: seq<Line>): seq<Line> {
    if ls == [] then []
    else WithoutComments(ls[..|ls| - 1]) + (if ls[|ls| - 1].Comment? then [] else [ls[|ls| - 1]])
  }

  lemma {:induction false} EventsLinesAppend(es: seq<seq<Record>>, e: seq<Record>)
    ensures EventsLines(es + [e]) == EventsLines(es) + EventLines(e)
  {
    assert (es + [e])[..|es|] == es;
  }

  lemma {:induction false} FieldsLinesAppend(recs: seq<Record>, rec: Record)
    ensures FieldsLines(recs + [rec]) == FieldsLines(recs) + FieldLines(rec)
  {
    assert (recs + [rec])[..|recs|] == recs;
  }

  lemma {:induction false} ValueLinesAppend(vs: seq<bytes>, v: bytes)
    ensures ValueLines(vs + [v]) == ValueLines(vs) + [Value(v)]
  {
    assert (vs + [v])[..|vs|] == vs;
  }

  /** A field with no values is its name line; a further value is one more line. */
  lemma {:induction false} FieldAddsLine(rec: Record, v: bytes)
    ensures FieldLines(Record(rec.name, [])) == [NewField(rec.name)]
    ensures FieldLines(Record(rec.name, rec.values + [v])) == FieldLines(rec) + [Value(v)]
  {
    ValueLinesAppend(rec.values, v);
    Assoc([NewField(rec.name)], ValueLines(rec.values), [Value(v)]);
  }

  /** A line more of the last field is a line more of the fields. */
  lemma {:induction false} LastFieldAddsLine(recs: seq<Record>, rec: Record, rec': Record, line: Line)
    requires FieldLines(rec') == FieldLines(rec) + [line]
    ensures FieldsLines(recs + [rec']) == FieldsLines(recs + [rec]) + [line]
  {
    hide FieldsLines, FieldLines;
    FieldsLinesAppend(recs, rec);
    FieldsLinesAppend(recs, rec');
    Assoc(FieldsLines(recs), FieldLines(rec), [line]);
  }

  /** A line more of the last event's fields is a line more of the events. */
  lemma {:induction false} LastEventAddsLine(es: seq<seq<Record>>, e: seq<Record>, e': seq<Record>, line: Line)
    requires FieldsLines(e') == FieldsLines(e) + [line]
    ensures EventsLines(es + [e']) == EventsLines(es + [e]) + [line]
  {
    hide EventsLines, FieldsLines;
    EventsLinesAppend(es, e);
    EventsLinesAppend(es, e');
    Assoc([NewEvent], FieldsLines(e), [line]);
    Assoc(EventsLines(es), EventLines(e), [line]);
  }

  lemma {:induction false} EmptyEvent()
    ensures EventLines([]) == [NewEvent]
  {}

  /** Each step adds its own line to the lines that say what the state holds, and nothing else. */
  lemma {:induction false} StepAddsLine(st: State, line: Line)
    requires Step(st, line).Next?
    ensures EventsLines(Finish(Step(st, line).st))
         == EventsLines(Finish(st)) + (if line.Comment? then [] else [line])
  {
    hide EventsLines, EventLines, FieldsLines, FieldLines;
    match line
    case Comment =>
      assert EventsLines(Finish(st)) + [] == EventsLines(Finish(st));
    case NewEvent =>
      EventsLinesAppend(Finish(st), []);
      EmptyEvent();
      assert Closed(Open([], None)) == [];
    case NewField(name) =>
      var recs, rec := Closed(st.open.value), Record(name, []);
      FieldAddsLine(rec, []);
      FieldsLinesAppend(recs, rec);
      LastEventAddsLine(st.delivered, recs, recs + [rec], line);
    case Value(v) =>
      var o := st.open.value;
      var rec := o.field.value;
      var rec' := Record(rec.name, rec.values + [v]);
      FieldAddsLine(rec, v);
      LastFieldAddsLine(o.fields, rec, rec', line);
      LastEventAddsLine(st.delivered, o.fields + [rec], o.fields + [rec'], line);
  }

  lemma {:induction false} NoneDelivered()
    ensures Run([]) == Done(START)
  {}

  lemma {:induction false} FrontAndLast<T>(a: seq<T>)
    requires a != []
    ensures a == a[..|a| - 1] + [a[|a| - 1]]
  {}

  lemma {:induction false} RunSnoc(ls: seq<Line>, line: Line)
    ensures Run(ls + [line]) ==
      var r := Run(ls);
      if r.Stopped? then r
      else var n := Step(r.st, line); if n.Next? then Done(n.st) else Stopped(r.st, |ls|, n.code)
  {
    assert (ls + [line])[..|ls|] == ls;
  }

  /** Nothing is lost, nothing is moved: the events at the end of a run say exactly the lines that
      were read, without the comments; and a refused line stops the run at the state of the lines
      before it. */
  lemma {:induction false} RunConserves(ls: seq<Line>)
    ensures var r := Run(ls);
      var n := if r.Done? then |ls| else r.at;
      && n <= |ls| && Run(ls[..n]) == Done(r.st)
      && EventsLines(Finish(r.st)) == WithoutComments(ls[..n])
      && (r.Stopped? ==> r.at < |ls| && Step(r.st, ls[r.at]) == Refused(r.code))
  {
    if ls == [] {
      assert EventsLines(Finish(START)) == [];
    } else {
      var front, line := ls[..|ls| - 1], ls[|ls| - 1];
      assert ls == front + [line];
      RunSnoc(front, line);
      RunConserves(front);
      var r, r' := Run(front), Run(ls);
      if r.Stopped? {
        assert front[..r.at] == ls[..r.at];
      } else {
        assert front[..|front|] == front && ls[..|ls|] == ls;
        if r'.Done? {
          StepAddsLine(r.st, line);
        }
      }
    }
  }

  // ---------- every list of events is delivered by its own lines ----------

  predicate Small(recs: seq<Record>) {
    forall i :: 0 <= i < |recs| ==> |recs[i].values| <= MAX_VALS_PER_FIELD
  }

  lemma {:induction false} RunNothing(ls: seq<Line>)
    ensures Run(ls + []) == Run(ls)
  {
    assert ls + [] == ls;
  }

  lemma {:induction false} StepValue(delivered: seq<seq<Record>>, fields: seq<Record>, rec: Record, v: bytes)
    requires |rec.values| < MAX_VALS_PER_FIELD
    ensures Step(State(delivered, Some(Open(fields, Some(rec)))), Value(v))
      == Next(State(delivered, Some(Open(fields, Some(Record(rec.name, rec.values + [v]))))))
  {}

  lemma {:induction false} RunValues(ls: seq<Line>, o: Open, delivered: seq<seq<Record>>, name: bytes, vs: seq<bytes>)
    requires Run(ls) == Done(State(delivered, Some(Open(o.fields, Some(Record(name, []))))))
    requires |vs| <= MAX_VALS_PER_FIELD
    ensures Run(ls + ValueLines(vs)) == Done(State(delivered, Some(Open(o.fields, Some(Record(name, vs))))))
  {
    hide Run, Step;
    if vs == [] {
      RunNothing(ls);
    } else {
      var front, v := vs[..|vs| - 1], vs[|vs| - 1];
      RunValues(ls, o, delivered, name, front);
      Assoc(ls, ValueLines(front), [Value(v)]);
      RunSnoc(ls + ValueLines(front), Value(v));
      StepValue(delivered, o.fields, Record(name, front), v);
      FrontAndLast(vs);
    }
  }

  lemma {:induction false} StepField(delivered: seq<seq<Record>>, o: Open, name: bytes)
    ensures Step(State(delivered, Some(o)), NewField(name))
      == Next(State(delivered, Some(Open(Closed(o), Some(Record(name, []))))))
  {}

  lemma {:induction false} RunFields(ls: seq<Line>, delivered: seq<seq<Record>>, recs: seq<Record>) returns (o: Open)
    requires Run(ls) == Done(State(delivered, Some(Open([], None)))) && Small(recs)
    ensures Run(ls + FieldsLines(recs)) == Done(State(delivered, Some(o))) && Closed(o) == recs
  {
    hide Run, Step;
    if recs == [] {
      o := Open([], None);
      RunNothing(ls);
    } else {
      var front, rec := recs[..|recs| - 1], recs[|recs| - 1];
      FrontAndLast(recs);
      var o' := RunFields(ls, delivered, front);
      var before := ls + FieldsLines(front);
      RunSnoc(before, NewField(rec.name));
      StepField(delivered, o', rec.name);
      o := Open(front, Some(rec));
      RunValues(before + [NewField(rec.name)], o, delivered, rec.name, rec.values);
      Assoc(before, [NewField(rec.name)], ValueLines(rec.values));
      Assoc(ls, FieldsLines(front), FieldLines(rec));
    }
  }

  lemma {:induction false} StepEvent(st: State)
    ensures Step(st, NewEvent) == Next(State(Finish(st), Some(Open([], None))))
  {}

  /** For every list of events whose fields keep within the limit, its lines deliver it. */
  lemma {:induction false} LinesDeliver(es: seq<seq<Record>>)
    requires forall i :: 0 <= i < |es| ==> Small(es[i])
    ensures Run(EventsLines(es)).Done? && Finish(Run(EventsLines(es)).st) == es
  {
    if es == [] {
    } else {
      var front, e := es[..|es| - 1], es[|es| - 1];
      LinesDeliver(front);
      var ls := EventsLines(front);
      hide Run, Step, FieldsLines, Closed;
      RunSnoc(ls, NewEvent);
      StepEvent(Run(ls).st);
      var o := RunFields(ls + [NewEvent], front, e);
      Assoc(ls, [NewEvent], FieldsLines(e));
      FrontAndLast(es);
    }
  }

  // ---------- when a line is refused ----------

  /** The last field line of the current event. */
  predicate FieldOpenAt(ls: seq<Line>, i: nat) {
    && i < |ls| && ls[i].NewField?
    && forall j :: i < j < |ls| ==> !ls[j].NewEvent? && !ls[j].NewField?
  }

  function CountValues(ls: seq<Line>): nat {
    if ls == [] then 0 else CountValues(ls[..|ls| - 1]) + (if ls[|ls| - 1].Value? then 1 else 0)
  }

  lemma {:induction false} FieldOpenSnoc(front: seq<Line>, line: Line, i: nat)
    ensures FieldOpenAt(front + [line], i) <==>
      if line.NewField? then i == |front| else !line.NewEvent? && FieldOpenAt(front, i)
  {
    var ls := front + [line];
    assert ls[|front|] == line;
    assert forall j :: 0 <= j < |front| ==> ls[j] == front[j];
  }

  /** The number of value lines from line i on. */
  function ValuesFrom(ls: seq<Line>, i: nat): nat
    requires i <= |ls|
  {
    CountValues(ls[i..])
  }

  lemma {:induction false} CountSnoc(front: seq<Line>, line: Line, i: nat)
    requires i <= |front|
    ensures ValuesFrom(front + [line], i) == ValuesFrom(front, i) + (if line.Value? then 1 else 0)
  {
    assert (front + [line])[i..] == front[i..] + [line];
    assert (front[i..] + [line])[..|front[i..]|] == front[i..];
  }

  function OpenRecord(st: State): Option<Record> {
    if st.open.Some? then st.open.value.field else None
  }

  /** What a line does to the open event and the open field. */
  lemma {:induction false} StepOpens(st: State, line: Line)
    requires Step(st, line).Next?
    ensures var n := Step(st, line).st; var rec, rec' := OpenRecord(st), OpenRecord(n);
      && (n.open.Some? <==> st.open.Some? || line.NewEvent?)
      && (line.NewEvent? ==> rec' == None)
      && (line.NewField? ==> rec' == Some(Record(line.name, [])))
      && (line.Value? ==> rec.Some? && rec' == Some(Record(rec.value.name, rec.value.values + [line.v])))
      && (line.Comment? ==> n == st)
    ensures !line.Malformed?
  {}

  /** After these lines an event is open if one began, and a field is open if it began at the line at
      and has the values that came after it. */
  ghost predicate Knows(ls: seq<Line>, at: int)
    requires Run(ls).Done?
  {
    var rec := OpenRecord(Run(ls).st);
    && (Run(ls).st.open.Some? <==> NewEvent in ls)
    && (rec.Some? <==> at >= 0)
    && (at >= 0 ==> FieldOpenAt(ls, at))
    && (at >= 0 ==> ValuesFrom(ls, at + 1) == |rec.value.values|)
    && forall i: nat :: FieldOpenAt(ls, i) ==> i == at
  }

  lemma {:induction false} KnowsMore(front: seq<Line>, line: Line, at: int) returns (at': int)
    requires Run(front).Done? && Run(front + [line]).Done? && Knows(front, at)
    ensures Knows(front + [line], at')
  {
    hide FieldOpenAt, ValuesFrom, Run, Step;
    RunSnoc(front, line);
    FieldOpenLater(front, line);
    StepOpens(Run(front).st, line);
    at' := if line.NewField? then |front| else if line.NewEvent? then -1 else at;
    if line.NewField? {
      CountNone(front + [line]);
    } else if at' >= 0 {
      FieldOpenIn(front, at);
      CountSnoc(front, line, at + 1);
    }
  }

  lemma {:induction false} CountNone(ls: seq<Line>)
    ensures ValuesFrom(ls, |ls|) == 0
  {}

  /** What the state knows about the lines: whether an event began, and at which line the open field
      began, if there is one, and how many values it has. An open field always belongs to an open
      event. */
  lemma {:induction false} StateKnows(ls: seq<Line>) returns (at: int)
    requires Run(ls).Done?
    ensures Run(ls).st.open.Some? <==> NewEvent in ls
    ensures var o := Run(ls).st.open; (o.Some? && o.value.field.Some?) == (at >= 0)
    ensures at >= 0 ==> FieldOpenAt(ls, at)
    ensures at >= 0 ==> ValuesFrom(ls, at + 1) == |Run(ls).st.open.value.field.value.values|
    ensures forall i: nat :: FieldOpenAt(ls, i) ==> i == at
  {
    at := KnowsAll(ls);
  }

  lemma {:induction false} KnowsAll(ls: seq<Line>) returns (at: int)
    requires Run(ls).Done?
    ensures Knows(ls, at)
  {
    hide FieldOpenAt, ValuesFrom, Run, Knows;
    if ls == [] {
      at := -1;
      NothingKnown();
    } else {
      var front, line := ls[..|ls| - 1], ls[|ls| - 1];
      FrontAndLast(ls);
      RunSnoc(front, line);
      at := KnowsAll(front);
      at := KnowsMore(front, line, at);
    }
  }

  lemma {:induction false} NothingKnown()
    ensures Run([]).Done? && Knows([], -1)
  {}

  lemma {:induction false} FieldOpenLater(front: seq<Line>, line: Line)
    ensures forall i :: FieldOpenAt(front + [line], i) <==>
      if line.NewField? then i == |front| else !line.NewEvent? && FieldOpenAt(front, i)
  {
    forall i: nat
      ensures FieldOpenAt(front + [line], i) <==>
        if line.NewField? then i == |front| else !line.NewEvent? && FieldOpenAt(front, i)
    {
      FieldOpenSnoc(front, line, i);
    }
  }

  lemma {:induction false} FieldOpenIn(ls: seq<Line>, i: nat)
    requires FieldOpenAt(ls, i)
    ensures i < |ls|
  {}

  /** The number of values after the line at which the open field began, if one is open. */
  ghost predicate FieldFull(ls: seq<Line>) {
    exists i: nat :: FieldOpenAt(ls, i) && ValuesFrom(ls, i + 1) == MAX_VALS_PER_FIELD
  }

  ghost predicate FieldOpen(ls: seq<Line>) {
    exists i: nat :: FieldOpenAt(ls, i)
  }

  /** A line is refused exactly when it is malformed, a field line before any event line, or a value
      line without an open field or after 255 values for that field; the code tells the last case. */
  lemma {:induction false} RefusedWhen(ls: seq<Line>, line: Line)
    requires Run(ls).Done?
    ensures Step(Run(ls).st, line).Refused? <==>
      || line.Malformed?
      || (line.NewField? && NewEvent !in ls)
      || (line.Value? && (!FieldOpen(ls) || FieldFull(ls)))
    ensures Step(Run(ls).st, line) == Refused(EE_TOOMANYVALUES) <==> line.Value? && FieldFull(ls)
  {
    var at := StateKnows(ls);
    if FieldFull(ls) {
      var i: nat :| FieldOpenAt(ls, i) && ValuesFrom(ls, i + 1) == MAX_VALS_PER_FIELD;
      assert i == at;
    } else if at >= 0 {
      assert ValuesFrom(ls, at + 1) != MAX_VALS_PER_FIELD;
    }
  }

  /** No field has more values than the limit. */
  predicate WithinLimit(st: State) {
    && (forall i :: 0 <= i < |st.delivered| ==> Small(st.delivered[i]))
    && (st.open.Some? ==> Small(Closed(st.open.value)))
  }

  lemma {:induction false} StepKeepsLimit(st: State, line: Line)
    requires WithinLimit(st) && Step(st, line).Next?
    ensures WithinLimit(Step(st, line).st)
  {
    if st.open.Some? && st.open.value.field.Some? {
      var o := st.open.value;
      assert Closed(o)[|o.fields|] == o.field.value;
      assert forall i :: 0 <= i < |o.fields| ==> Closed(o)[i] == o.fields[i];
    }
  }

  lemma {:induction false} RunKeepsLimit(ls: seq<Line>)
    ensures WithinLimit(Run(ls).st)
  {
    if ls == [] {
    } else {
      var front, line := ls[..|ls| - 1], ls[|ls| - 1];
      RunKeepsLimit(front);
      if Run(front).Done? && Step(Run(front).st, line).Next? {
        StepKeepsLimit(Run(front).st, line);
      }
    }
  }

  /** The events delivered so far are those that a later event line closed: their lines are the ones
      before the last event line. */
  lemma {:induction false} DeliveredAreClosed(ls: seq<Line>) returns (at: nat)
    requires Run(ls).Done?
    ensures NewEvent !in ls ==> Run(ls).st.delivered == []
    ensures NewEvent in ls ==> at < |ls| && ls[at] == NewEvent && NewEvent !in ls[at + 1..]
    ensures NewEvent in ls ==> EventsLines(Run(ls).st.delivered) == WithoutComments(ls[..at])
  {
    hide EventsLines, WithoutComments, Run;
    at := 0;
    NoneDelivered();
    if ls == [] {
    } else {
      var front, line := ls[..|ls| - 1], ls[|ls| - 1];
      assert ls == front + [line];
      RunSnoc(front, line);
      at := DeliveredAreClosed(front);
      if line.NewEvent? {
        at := |front|;
        RunConserves(front);
        assert front[..|front|] == front && ls[at + 1..] == [] && ls[..at] == front;
        assert Run(ls).st.delivered == Finish(Run(front).st);
      } else if NewEvent in front {
        assert Run(ls).st.delivered == Run(front).st.delivered;
        assert ls[..at] == front[..at] && ls[at + 1..] == front[at + 1..] + [line];
      }
    }
  }

  /** A run that stops delivered nothing beyond the events closed before the refused line, and it
      stops at the first line that is refused. */
  lemma {:induction false} StopsAtFirst(ls: seq<Line>, k: nat)
    requires k < |ls| && Run(ls[..k]).Done? && Step(Run(ls[..k]).st, ls[k]).Refused?
    ensures Run(ls) == Stopped(Run(ls[..k]).st, k, Step(Run(ls[..k]).st, ls[k]).code)
    decreases |ls|
  {
    var front := ls[..|ls| - 1];
    if k < |front| {
      assert front[..k] == ls[..k];
      StopsAtFirst(front, k);
    } else {
      assert front == ls[..k];
    }
  }
}
