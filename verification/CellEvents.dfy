/**
 The link and the cell tasks agree: what a run of the link does to the cell of one endpoint is
 what the critical sections of its two tasks do, step by step and under any schedule.
 */
module CellEvents {
  import opened Wrappers
  import opened Wire
  import opened Crypto
  import opened NonceLink
  import opened ByteLink
  import opened CellTasks

  /** The critical section of `x` that an event goes through, if it is one of `x` and not blocked. */
  function SectionOf(b: Endpoints, ev: Event, x: Side): seq<Entry> {
    match ev
    case Seal(_, message, next) =>
      if ev.side != x || b.At(x).sending.Some? then [] else [Entry(Sending, SealJob(message, next))]
    case Open(_) =>
      if ev.side != x || b.At(x).reading.None? then [] else [Entry(Receiving, OpenJob(b.At(x).reading.value))]
    case _ => []
  }

  /** What the event shows of its section: the packet sealed, the message opened, or the error. */
  function Shown(net: Net, b: Endpoints, ev: Event, x: Side): Result<Bytes, Error>
    requires SectionOf(b, ev, x) != []
  {
    var (after, out) := ByteStep(net, b, ev);
    if out.Failed? then Err(out.error)
    else if ev.Seal? then Ok(after.At(x).sending.value.packet)
    else Ok(out.message)
  }

  function Sections(net: Net, b: Endpoints, evs: seq<Event>, x: Side): seq<Entry> {
    if evs == [] then []
    else
      var n := |evs| - 1;
      Sections(net, b, evs[..n], x) + SectionOf(ByteExec(net, b, evs[..n]), evs[n], x)
  }

  /** What a run shows of the sections of one task of `x`. */
  function AllShown(net: Net, b: Endpoints, evs: seq<Event>, x: Side, w: Who): seq<Result<Bytes, Error>> {
    if evs == [] then []
    else
      var n := |evs| - 1;
      var at := ByteExec(net, b, evs[..n]);
      var section := SectionOf(at, evs[n], x);
      AllShown(net, b, evs[..n], x, w) +
      if section != [] && section[0].who == w then [Shown(net, at, evs[n], x)] else []
  }

  lemma {:induction false} ByteExecLast(net: Net, b: Endpoints, evs: seq<Event>)
    requires evs != []
    ensures ByteExec(net, b, evs) == ByteStep(net, ByteExec(net, b, evs[..|evs| - 1]), evs[|evs| - 1]).0
    decreases |evs|
  {
    var n := |evs| - 1;
    if n > 0 {
      ByteExecLast(net, ByteStep(net, b, evs[0]).0, evs[1..]);
      assert evs[1..][..n - 1] == evs[..n][1..];
    }
  }

  /** One event: a section is the atomic operation on the cell, and nothing else touches the cell. */
  lemma EventIsSection(net: Net, b: Endpoints, ev: Event, x: Side)
    ensures var section := SectionOf(b, ev, x);
      if section == [] then ByteStep(net, b, ev).0.At(x).cell == b.At(x).cell
      else
        && |section| == 1
        && Atomic(net.stack, b.At(x).cell, section[0].job) ==
           (ByteStep(net, b, ev).0.At(x).cell, Shown(net, b, ev, x))
  {
  }

  /** A run: the cell and the results are those of its sections, one after the other. */
  lemma {:induction false} RunIsSections(net: Net, b: Endpoints, evs: seq<Event>, x: Side)
    ensures var log := Sections(net, b, evs, x);
      && ByteExec(net, b, evs).At(x).cell == CellAfter(net.stack, b.At(x).cell, log)
      && forall w: Who :: AllShown(net, b, evs, x, w) == ResultsOf(net.stack, b.At(x).cell, log, w)
  {
    if evs != [] {
      var n := |evs| - 1;
      var at := ByteExec(net, b, evs[..n]);
      var log, section := Sections(net, b, evs[..n], x), SectionOf(at, evs[n], x);
      RunIsSections(net, b, evs[..n], x);
      ByteExecLast(net, b, evs);
      EventIsSection(net, at, evs[n], x);
      forall w: Who
        ensures AllShown(net, b, evs, x, w) == ResultsOf(net.stack, b.At(x).cell, Sections(net, b, evs, x), w)
      {
        if section != [] {
          assert section == [section[0]];
          LogAppend(net.stack, b.At(x).cell, log, section[0], w);
        } else {
          assert log + [] == log;
        }
      }
      if section != [] {
        assert section == [section[0]];
        LogAppend(net.stack, b.At(x).cell, log, section[0], Sending);
      } else {
        assert log + [] == log;
      }
    }
  }

  /**
   The atomic events of the link are faithful to the steps of the tasks. Whenever the tasks of an
   endpoint, under any schedule, have gone through the sections of a run of the link in its order
   and the lock is free, they have left the cell and the results that the run has.
   */
  lemma TasksDoWhatTheLinkDoes(net: Net, b: Endpoints, evs: seq<Event>, x: Side, c: Credential, sends: seq<Job>,
                               recvs: seq<Job>, turns: seq<Who>)
    requires net.Encrypted() && b.At(x).cell == Some(c)
    requires var s := Schedule(net.stack, Initial(c, sends, recvs), turns);
      s.lock.None? && s.log == Sections(net, b, evs, x)
    ensures var s := Schedule(net.stack, Initial(c, sends, recvs), turns);
      && s.cell == ByteExec(net, b, evs).At(x).cell
      && s.sender.results == AllShown(net, b, evs, x, Sending)
      && s.receiver.results == AllShown(net, b, evs, x, Receiving)
  {
    InitialIsLinear(net.stack, c, sends, recvs);
    EveryScheduleIsAtomic(net.stack, Some(c), Initial(c, sends, recvs), turns, sends, recvs);
    RunIsSections(net, b, evs, x);
  }

  /** For every run of the link there is such a schedule, of tasks that have its sections to do. */
  lemma SomeScheduleDoesWhatTheLinkDoes(net: Net, b: Endpoints, evs: seq<Event>, x: Side, c: Credential)
    returns (turns: seq<Who>)
    requires net.Encrypted() && b.At(x).cell == Some(c)
    ensures var log := Sections(net, b, evs, x);
      var s := Schedule(net.stack, Initial(c, JobsOf(log, Sending), JobsOf(log, Receiving)), turns);
      && s.lock.None? && s.log == log
      && s.cell == ByteExec(net, b, evs).At(x).cell
      && s.sender.results == AllShown(net, b, evs, x, Sending)
      && s.receiver.results == AllShown(net, b, evs, x, Receiving)
  {
    var log := Sections(net, b, evs, x);
    var sends, recvs := JobsOf(log, Sending), JobsOf(log, Receiving);
    turns := SectionsInOrder(net.stack, Initial(c, sends, recvs), log);
    assert [] + log == log;
    TasksDoWhatTheLinkDoes(net, b, evs, x, c, sends, recvs, turns);
  }
}
