/** int_dec.c: the line loop that keeps the open event and the open field, and delivers events. */
module IntDecoder {
  import opened Bytes
  import opened Fields
  import opened Events
  import opened IntLines

  /** The message of a failed run, with the number of the line. */
  datatype Message = InvalidFormat(line: nat) | ErrorProcessing(line: nat)

  // ---------- what the decoder holds ----------

  ghost function FieldParts(field: Field?): set<object>
    reads field
  {
    if field == null then {} else Own(field)
  }

  ghost function EventParts(event: Event?): set<object>
    reads event, if event == null then null else event.fields
  {
    if event == null then {} else event.Parts()
  }

  /** The open field holds the record, and has no part in common with the event. */
  ghost predicate HoldsField(field: Field?, rec: Option<Record>)
    reads field, FieldParts(field)
  {
    if field == null then rec.None? else rec.Some? && Says(field, rec.value, Own(field))
  }

  /** An event is open when there is one, and a field only in an open event. */
  ghost predicate HoldsOpen(event: Event?, field: Field?, open: Option<Open>)
    reads event, if event == null then null else event.fields
    reads EventParts(event), field, FieldParts(field)
  {
    if event == null then open.None? && field == null
    else
      && open.Some? && event.Valid() && event.Contents() == open.value.fields
      && HoldsField(field, open.value.field) && event.Parts() !! FieldParts(field)
  }

  function LineOf(typ: byte, value: bytes): Line {
    Classify([typ, COLON] + value)
  }

  /** A line of one of the four types. */
  lemma {:induction false} LineOfIs(ln: bytes)
    requires |ln| >= 2 && ln[1] == COLON
    ensures LineOf(ln[0], ln[2..]) == Classify(ln)
  {
    assert [ln[0], COLON] + ln[2..] == ln;
  }

  /** decodeLn: the type letter and the rest of the line. */
  method DecodeLn(ln: bytes) returns (r: int, typ: byte, value: bytes)
    ensures r == if Classify(ln).Malformed? then EE_INVLDFMT else EE_OK
    ensures r == EE_OK ==> typ in {HASH, LOWER_E, LOWER_F, 0x76} && LineOf(typ, value) == Classify(ln)
  {
    typ, value := NUL, [];
    if |ln| < 2 {
      return EE_INVLDFMT, typ, value;
    }
    typ := ln[0];
    if typ != HASH && typ != LOWER_E && typ != LOWER_F && typ != 0x76 {
      return EE_INVLDFMT, typ, value;
    }
    if ln[1] != COLON {
      return EE_INVLDFMT, typ, value;
    }
    value := ln[2..];
    LineOfIs(ln);
    r := EE_OK;
  }

  /** finishField: the open field becomes the last field of the event. */
  method FinishField(event: Event, field: Field?, ghost open: Open) returns (field': Field?)
    requires HoldsOpen(event, field, Some(open))
    modifies event.Parts()
    ensures field' == null && HoldsOpen(event, null, Some(Open(Closed(open), None)))
    ensures fresh(event.Parts() - old(event.Parts()) - old(FieldParts(field)))
  {
    if field != null {
      event.AddField(field, open.field.value);
    } else {
      assert open.fields + [] == open.fields;
    }
    field' := null;
  }

  ghost function HeldParts(event: Event?, field: Field?): set<object>
    reads event, if event == null then null else event.fields
    reads field
  {
    EventParts(event) + FieldParts(field)
  }

  /** The 'e' case: what was open is finished and delivered, and a new event is open. */
  method ProcessEvent(event: Event?, field: Field?, ghost open: Option<Open>)
    returns (event': Event, field': Field?, out: Event?)
    requires HoldsOpen(event, field, open)
    modifies EventParts(event)
    ensures HoldsOpen(event', field', Some(Open([], None))) && fresh(HeldParts(event', field'))
    ensures out == event && (out != null ==> out.Valid() && out.Contents() == Closed(open.value))
    ensures out != null ==> fresh(out.Parts() - old(HeldParts(event, field)))
    ensures out != null ==> out.Parts() !! HeldParts(event', field')
  {
    field' := field;
    if event != null {
      field' := FinishField(event, field, open.value);
      assert allocated(event.Parts());
    }
    out := event;
    event' := new Event();
  }

  /** The 'f' case: a field line needs an event; it finishes the open field and opens another. */
  method ProcessField(value: bytes, event: Event?, field: Field?, ghost open: Option<Open>)
    returns (r: int, field': Field?)
    requires HoldsOpen(event, field, open)
    modifies EventParts(event)
    ensures r == if event == null then EE_INVLDFMT else EE_OK
    ensures event == null ==> field' == field
    ensures event != null ==> HoldsOpen(event, field', Some(Open(Closed(open.value), Some(Record(value, [])))))
    ensures event != null ==> fresh(HeldParts(event, field') - old(HeldParts(event, field)))
  {
    if event == null {
      return EE_INVLDFMT, field;
    }
    field' := FinishField(event, field, open.value);
    field', r := OpenField(event, value, Closed(open.value));
  }

  /** A new field with this name and no values. */
  method OpenField(event: Event, name: bytes, ghost recs: seq<Record>) returns (field: Field, r: int)
    requires HoldsOpen(event, null, Some(Open(recs, None)))
    ensures HoldsOpen(event, field, Some(Open(recs, Some(Record(name, []))))) && fresh(FieldParts(field))
    ensures event.Parts() == old(event.Parts()) && r == EE_OK
  {
    hide BucketChained, AllSay;
    assert allocated(event.Parts());
    field := new Field();
    r := field.NameField(name);
  }

  /** The 'v' case: a value line needs an open field, and room in it. */
  method ProcessValue(value: bytes, event: Event?, field: Field?, ghost open: Option<Open>) returns (r: int)
    requires HoldsOpen(event, field, open)
    modifies FieldParts(field)
    ensures r == if field == null then EE_INVLDFMT
                 else if |open.value.field.value.values| == MAX_VALS_PER_FIELD then EE_TOOMANYVALUES else EE_OK
    ensures r == EE_OK ==> var rec := open.value.field.value;
      HoldsOpen(event, field, Some(Open(open.value.fields, Some(Record(rec.name, rec.values + [value])))))
    ensures r != EE_OK ==> HoldsOpen(event, field, open)
    ensures fresh(HeldParts(event, field) - old(HeldParts(event, field)))
  {
    if field == null {
      return EE_INVLDFMT;
    }
    assert allocated(EventParts(event));
    ghost var before := EventParts(event);
    r := GrowField(field, value, open.value.field.value);
    assert EventParts(event) == before;
  }

  lemma {:induction false} LaterNodes(a: seq<ValNode>, b: seq<ValNode>)
    requires a <= b
    ensures forall n :: n in b ==> n in a || n in b[|a|..]
  {
    assert b == a + b[|a|..];
  }

  method GrowField(field: Field, value: bytes, ghost rec: Record) returns (r: int)
    requires Says(field, rec, Own(field))
    modifies Own(field)
    ensures r == if |rec.values| == MAX_VALS_PER_FIELD then EE_TOOMANYVALUES else EE_OK
    ensures Says(field, if r == EE_OK then Record(rec.name, rec.values + [value]) else rec, Own(field))
    ensures fresh(Own(field) - old(Own(field)))
  {
    ghost var before := field.nodes;
    r := field.AddValue(value);
    LaterNodes(before, field.nodes);
  }

  lemma {:induction false} LineOfCases(typ: byte, value: bytes)
    ensures typ == HASH ==> LineOf(typ, value) == Comment
    ensures typ == LOWER_E ==> LineOf(typ, value) == NewEvent
    ensures typ == LOWER_F ==> LineOf(typ, value) == NewField(value)
    ensures typ == 0x76 ==> LineOf(typ, value) == Value(value)
  {
    assert ([typ, COLON] + value)[2..] == value;
  }

  /** processLn: what the event and the field hold, and what is delivered, is one step of the state
      machine; a refused line changes nothing. */
  method ProcessLn(typ: byte, value: bytes, event: Event?, field: Field?, ghost open: Option<Open>)
    returns (r: int, event': Event?, field': Field?, out: Event?, ghost n: Stepped, ghost made: set<object>)
    requires HoldsOpen(event, field, open) && typ in {HASH, LOWER_E, LOWER_F, 0x76}
    modifies HeldParts(event, field)
    ensures n == Step(State([], open), LineOf(typ, value)) && r == if n.Next? then EE_OK else n.code
    ensures r == EE_OK <==> n.Next?
    ensures HoldsOpen(event', field', if n.Next? then n.st.open else open)
    ensures fresh(made) && HeldParts(event', field') <= old(HeldParts(event, field)) + made
    ensures out == null ==> n.Next? ==> n.st.delivered == []
    ensures out != null ==> n.Next? && out.Valid() && n.st.delivered == [out.Contents()]
    ensures out != null ==> out.Parts() <= old(HeldParts(event, field)) + made
    ensures out != null ==> out.Parts() !! HeldParts(event', field')
  {
    hide HoldsOpen, Classify, Closed;
    LineOfCases(typ, value);
    OpenMatches(event, field, open);
    r, event', field', out := EE_OK, event, field, null;
    n := Step(State([], open), LineOf(typ, value));
    ghost var held := HeldParts(event, field);
    if typ == LOWER_E {
      event', field', out := ProcessEvent(event, field, open);
    } else if typ == LOWER_F {
      r, field' := ProcessField(value, event, field, open);
    } else if typ == 0x76 {
      r := ProcessValue(value, event, field, open);
    }
    made := HeldParts(event', field') + EventParts(out) - held;
  }

  /** An open field implies an open event. */
  lemma {:induction false} OpenMatches(event: Event?, field: Field?, open: Option<Open>)
    requires HoldsOpen(event, field, open)
    ensures event == null <==> open.None?
    ensures field == null <==> open.None? || open.value.field.None?
    ensures field != null ==> event != null
  {}

  // ---------- whole runs ----------

  /** The event says what the records say, and all its parts are in s. */
  ghost predicate EventSays(e: Event, recs: seq<Record>, s: set<object>)
    reads s
  {
    && e in s && (e.fields != null ==> e.fields in s) && e.Parts() <= s
    && e.Valid() && e.Contents() == recs
  }

  ghost predicate EventsSay(es: seq<Event>, contents: seq<seq<Record>>, s: set<object>)
    reads s
  {
    |es| == |contents| && forall i :: 0 <= i < |es| ==> EventSays(es[i], contents[i], s)
  }

  lemma {:induction false} EventsSayMore(es: seq<Event>, contents: seq<seq<Record>>, s: set<object>, e: Event)
    requires EventsSay(es, contents, s) && e.Valid()
    ensures EventsSay(es + [e], contents + [e.Contents()], s + e.Parts())
  {
    forall i | 0 <= i < |es|
      ensures EventSays(es[i], contents[i], s + e.Parts())
    {
      assert EventSays(es[i], contents[i], s);
    }
  }

  /** A step does not depend on what was delivered before. */
  lemma {:induction false} StepShift(st: State, line: Line)
    ensures Step(st, line) ==
      var n := Step(State([], st.open), line);
      if n.Refused? then n else Next(State(st.delivered + n.st.delivered, n.st.open))
  {
    assert st.delivered + [] == st.delivered;
    if st.open.Some? {
      assert [] + [Closed(st.open.value)] == [Closed(st.open.value)];
    }
  }

  lemma {:induction false} RunPrefix(ls: seq<Line>, i: nat)
    requires i < |ls| && Run(ls[..i]).Done?
    ensures var n := Step(Run(ls[..i]).st, ls[i]);
      && (n.Next? ==> Run(ls[..i + 1]) == Done(n.st))
      && (n.Refused? ==> Run(ls) == Stopped(Run(ls[..i]).st, i, n.code))
  {
    assert ls[..i + 1] == ls[..i] + [ls[i]];
    RunSnoc(ls[..i], ls[i]);
    if Step(Run(ls[..i]).st, ls[i]).Refused? {
      StopsAtFirst(ls, i);
    }
  }

  /** The end of the input: the open event is finished and delivered. Its delivery overwrites the
      code with which the input ended. */
  method EndOfInput(event: Event?, field: Field?, endCode: int, ghost open: Option<Open>)
    returns (r: int, out: Event?, ghost made: set<object>)
    requires HoldsOpen(event, field, open) && endCode != EE_OK
    modifies EventParts(event)
    ensures r == if open.Some? || endCode == EE_EOF then EE_OK else endCode
    ensures out == event
    ensures out != null ==> open.Some? && out.Valid() && out.Contents() == Closed(open.value)
    ensures out != null ==> out.Parts() <= old(HeldParts(event, field)) + made
    ensures fresh(made)
  {
    r := endCode;
    ghost var held := HeldParts(event, field);
    if event != null {
      var field' := FinishField(event, field, open.value);
      r := EE_OK;
    }
    out := event;
    made := EventParts(out) - held;
    if r == EE_EOF {
      r := EE_OK;
    }
  }

  /** What a run returns: its code, the message, and the events as they stand at the end. */
  ghost predicate Returns(lines: seq<bytes>, endCode: int, r: int, events: seq<Event>, errMsg: Option<Message>,
                          s: set<object>)
    reads s
  {
    var ls := ClassifyAll(lines);
    match Run(ls)
    case Done(st) =>
      && EventsSay(events, Finish(st), s) && errMsg == None
      && r == if st.open.Some? || endCode == EE_EOF then EE_OK else endCode
    case Stopped(st, at, code) =>
      && EventsSay(events, st.delivered, s) && r == code && at < |ls|
      && errMsg == Some(if ls[at].Malformed? then InvalidFormat(at + 1) else ErrorProcessing(at + 1))
  }

  /** The events delivered and what is open are apart, and all of it is in all. */
  ghost predicate Apart(done: set<object>, event: Event?, field: Field?, all: set<object>)
    reads event, if event == null then null else event.fields
    reads field
  {
    done !! HeldParts(event, field) && done <= all && HeldParts(event, field) <= all
  }

  /** One line in the middle of a run: a step of the state machine, with the events so far. */
  method Advance(typ: byte, value: bytes, event: Event?, field: Field?, events: seq<Event>,
                 ghost st: State, ghost done: set<object>, ghost all: set<object>)
    returns (r: int, event': Event?, field': Field?, events': seq<Event>,
             ghost st': State, ghost done': set<object>, ghost made: set<object>)
    requires typ in {HASH, LOWER_E, LOWER_F, 0x76}
    requires EventsSay(events, st.delivered, done) && HoldsOpen(event, field, st.open) && Apart(done, event, field, all)
    modifies HeldParts(event, field)
    ensures var n := Step(st, LineOf(typ, value));
      && r == (if n.Next? then EE_OK else n.code) && (r == EE_OK <==> n.Next?)
      && st' == if n.Next? then n.st else st
    ensures r != EE_OK ==> events' == events && done' == done
    ensures EventsSay(events', st'.delivered, done') && HoldsOpen(event', field', st'.open)
    ensures Apart(done', event', field', all + made) && fresh(made)
  {
    hide HoldsOpen, EventsSay, Step, Classify, EventParts, FieldParts;
    assert allocated(done);
    events', done', st' := events, done, st;
    StepShift(st, LineOf(typ, value));
    ghost var n;
    var out;
    r, event', field', out, n, made := ProcessLn(typ, value, event, field, st.open);
    if r != EE_OK {
      return;
    }
    if out != null {
      EventsSayMore(events, st.delivered, done, out);
      events', done' := events + [out], done + out.Parts();
    } else {
      assert st.delivered + [] == st.delivered;
    }
    st' := State(st.delivered + n.st.delivered, n.st.open);
  }

  /** ee_intDec over the lines the callback yields before it returns endCode. */
  method IntDec(lines: seq<bytes>, endCode: int)
    returns (r: int, events: seq<Event>, errMsg: Option<Message>, ghost done: set<object>)
    requires endCode != EE_OK
    ensures Returns(lines, endCode, r, events, errMsg, done) && fresh(done)
  {
    hide HoldsOpen, EventsSay, Step, Run, Classify, EventParts, FieldParts, Returns, Finish, ClassifyAll;
    ghost var ls, st := ClassifyAll(lines), START;
    var event: Event?, field: Field?, lnNbr, i := null, null, 1, 0;
    r, events, errMsg, done := EE_OK, [], None, {};
    NothingYet(ls);
    ghost var all: set<object>, made := {}, {};
    while i < |lines|
      invariant 0 <= i <= |lines| && lnNbr == i + 1
      invariant Run(ls[..i]) == Done(st)
      invariant EventsSay(events, st.delivered, done) && HoldsOpen(event, field, st.open)
      invariant Apart(done, event, field, all) && fresh(all)
    {
      RunPrefix(ls, i);
      ghost var before := st;
      var typ, value;
      r, typ, value := DecodeLn(lines[i]);
      if r != EE_OK {
        RefusesMalformed(st, ls[i]);
        errMsg := Some(InvalidFormat(lnNbr));
        ReturnsStopped(lines, endCode, r, events, done, st, i);
        return;
      }
      r, event, field, events, st, done, made := Advance(typ, value, event, field, events, st, done, all);
      all := all + made;
      if r != EE_OK {
        errMsg := Some(ErrorProcessing(lnNbr));
        ReturnsStopped(lines, endCode, r, events, done, before, i);
        return;
      }
      i, lnNbr := i + 1, lnNbr + 1;
    }
    WholeRun(ls);
    r, events, done := Conclude(event, field, events, endCode, st, done, all);
    ReturnsDone(lines, endCode, r, events, done, st);
  }

  lemma {:induction false} WholeRun(ls: seq<Line>)
    ensures Run(ls[..|ls|]) == Run(ls)
  {
    assert ls[..|ls|] == ls;
  }

  /** The end of a run: the open event, if there is one, is the last of the events. */
  method Conclude(event: Event?, field: Field?, events: seq<Event>, endCode: int,
                  ghost st: State, ghost done: set<object>, ghost all: set<object>)
    returns (r: int, events': seq<Event>, ghost done': set<object>)
    requires EventsSay(events, st.delivered, done) && HoldsOpen(event, field, st.open) && Apart(done, event, field, all)
    requires endCode != EE_OK
    modifies EventParts(event)
    ensures r == if st.open.Some? || endCode == EE_EOF then EE_OK else endCode
    ensures EventsSay(events', Finish(st), done') && fresh(done' - all)
  {
    hide HoldsOpen, EventsSay, EventParts, FieldParts, Finish;
    OpenMatches(event, field, st.open);
    assert allocated(done);
    events', done' := events, done;
    var out;
    ghost var made;
    r, out, made := EndOfInput(event, field, endCode, st.open);
    FinishIs(st);
    if out != null {
      assert out.Parts() <= all + made;
      EventsSayMore(events, st.delivered, done, out);
      events', done' := events + [out], done + out.Parts();
    }
  }

  lemma {:induction false} FinishIs(st: State)
    ensures st.open.None? ==> Finish(st) == st.delivered
    ensures st.open.Some? ==> Finish(st) == st.delivered + [Closed(st.open.value)]
  {}

  lemma {:induction false} ReturnsDone(lines: seq<bytes>, endCode: int, r: int, events: seq<Event>, s: set<object>,
                                       st: State)
    requires Run(ClassifyAll(lines)) == Done(st) && EventsSay(events, Finish(st), s)
    requires r == if st.open.Some? || endCode == EE_EOF then EE_OK else endCode
    ensures Returns(lines, endCode, r, events, None, s)
  {}

  lemma {:induction false} ReturnsStopped(lines: seq<bytes>, endCode: int, r: int, events: seq<Event>, s: set<object>,
                                          st: State, at: nat)
    requires at < |lines| && Run(ClassifyAll(lines)) == Stopped(st, at, r) && EventsSay(events, st.delivered, s)
    ensures Returns(lines, endCode, r, events,
      Some(if Classify(lines[at]).Malformed? then InvalidFormat(at + 1) else ErrorProcessing(at + 1)), s)
  {}

  lemma {:induction false} RefusesMalformed(st: State, line: Line)
    ensures line.Malformed? ==> Step(st, line) == Refused(EE_INVLDFMT)
  {}

  lemma {:induction false} NothingYet(ls: seq<Line>)
    ensures Run(ls[..0]) == Done(START)
    ensures EventsSay([], [], {}) && HoldsOpen(null, null, None) && HeldParts(null, null) == {}
  {
    assert ls[..0] == [];
  }

  // ---------- the lost end code ----------

  /** A run over lines that are all accepted succeeds exactly when the input ended properly or an
      event line was read: an error that ends the input after an event line is lost. */
  lemma {:induction false} ErrorLostWhen(lines: seq<bytes>, endCode: int, r: int, events: seq<Event>,
                                         errMsg: Option<Message>, s: set<object>)
    requires endCode != EE_OK && Run(ClassifyAll(lines)).Done?
    requires Returns(lines, endCode, r, events, errMsg, s)
    ensures r == EE_OK <==> endCode == EE_EOF || NewEvent in ClassifyAll(lines)
  {
    hide EventsSay, Run, Classify, ClassifyAll;
    var at := StateKnows(ClassifyAll(lines));
  }

  /** The smallest such run: one event line, and then the input fails. */
  lemma {:induction false} ErrorLostExample(endCode: int, r: int, events: seq<Event>, errMsg: Option<Message>,
                                            s: set<object>)
    requires endCode != EE_OK && endCode != EE_EOF
    requires Returns([[LOWER_E, COLON]], endCode, r, events, errMsg, s)
    ensures r == EE_OK && |events| == 1 && events[0].Contents() == [] && errMsg == None
  {
    var lines := [[LOWER_E, COLON]];
    var ls := ClassifyAll(lines);
    assert ls == [] + [NewEvent];
    RunSnoc([], NewEvent);
    NoneDelivered();
    assert Run(ls) == Done(State([], Some(Open([], None))));
    assert EventSays(events[0], [], s);
  }
}
