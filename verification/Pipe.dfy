/** The anonymous pipes of `io/pipe.rs`, with their slots reused. */
module Pipe {
  import opened Bytes
  import opened Wrappers

  const PIPE_BUFFER_SIZE: nat := 65536

  datatype PipeState = PipeState(baseId: nat, buffer: seq<Byte>, writeOpen: bool, readOpen: bool)

  type Slots = seq<Option<PipeState>>

  ghost predicate Live(pipes: Slots, i: int) {
    0 <= i < |pipes| && pipes[i].Some?
  }

  /** Pipe ids are issued in pairs, the read end at the odd one. */
  ghost predicate IdsDisjoint(pipes: Slots, nextId: nat) {
    && nextId % 2 == 1
    && (forall i :: Live(pipes, i) ==> pipes[i].value.baseId % 2 == 1 && pipes[i].value.baseId < nextId)
    && (forall i, j :: Live(pipes, i) && Live(pipes, j) && pipes[i].value.baseId == pipes[j].value.baseId ==> i == j)
  }

  /** Per pipe, what was read and what is buffered is what was accepted, in order. */
  ghost predicate StreamsKept(pipes: Slots, accepted: map<nat, seq<Byte>>, delivered: map<nat, seq<Byte>>) {
    forall i :: Live(pipes, i) ==>
      var p := pipes[i].value;
      && |p.buffer| <= PIPE_BUFFER_SIZE && (p.readOpen || p.writeOpen)
      && p.baseId in accepted && p.baseId in delivered && accepted[p.baseId] == delivered[p.baseId] + p.buffer
  }

  predicate Matches(slot: Option<PipeState>, id: nat) {
    slot.Some? && slot.value.baseId <= id < slot.value.baseId + 2
  }

  /** A pipe with new ids in a slot of its own disturbs no other. */
  lemma PipePlaced(pipes: Slots, pipes': Slots, idx: nat, nextId: nat,
                   accepted: map<nat, seq<Byte>>, delivered: map<nat, seq<Byte>>)
    requires IdsDisjoint(pipes, nextId) && StreamsKept(pipes, accepted, delivered)
    requires idx < |pipes'| && pipes'[idx] == Some(PipeState(nextId, [], true, true)) && |pipes'| >= |pipes|
    requires forall i :: 0 <= i < |pipes'| && i != idx ==> i < |pipes| && pipes'[i] == pipes[i]
    ensures IdsDisjoint(pipes', nextId + 2) && StreamsKept(pipes', accepted[nextId := []], delivered[nextId := []])
  {
  }

  class PipeTable {
    var pipes: Slots
    var nextId: nat
    ghost var accepted: map<nat, seq<Byte>>
    ghost var delivered: map<nat, seq<Byte>>

    ghost predicate Valid()
      reads this
    {
      IdsDisjoint(pipes, nextId) && StreamsKept(pipes, accepted, delivered)
    }

    constructor ()
      ensures Valid() && pipes == [] && nextId == 1
    {
      pipes, nextId, accepted, delivered := [], 1, map[], map[];
    }

    /** A new pipe with ids that no pipe ever had, in the first free slot. */
    method CreateAnonymous() returns (idx: nat, readId: nat, writeId: nat)
      requires Valid()
      modifies this
      ensures Valid() && readId == old(nextId) && writeId == readId + 1 && nextId == old(nextId) + 2
      ensures Live(pipes, idx) && pipes[idx].value == PipeState(readId, [], true, true)
      ensures !Live(old(pipes), idx) && forall i :: 0 <= i < idx ==> Live(old(pipes), i)
      ensures pipes == if idx < |old(pipes)| then old(pipes)[idx := pipes[idx]] else old(pipes) + [pipes[idx]]
      ensures accepted == old(accepted)[readId := []] && delivered == old(delivered)[readId := []]
    {
      hide IdsDisjoint, StreamsKept;
      var state := PipeState(nextId, [], true, true);
      ghost var first, ghosts := nextId, (accepted, delivered);
      readId, writeId := nextId, nextId + 1;
      nextId := nextId + 2;
      accepted, delivered := accepted[readId := []], delivered[readId := []];
      idx := 0;
      while idx < |pipes|
        invariant idx <= |pipes| && forall i :: 0 <= i < idx ==> Live(pipes, i)
      {
        if pipes[idx].None? {
          PipePlaced(pipes, pipes[idx := Some(state)], idx, first, ghosts.0, ghosts.1);
          pipes := pipes[idx := Some(state)];
          return;
        }
        idx := idx + 1;
      }
      PipePlaced(pipes, pipes + [Some(state)], idx, first, ghosts.0, ghosts.1);
      pipes := pipes + [Some(state)];
    }

    /** An id belongs to a live pipe or to nothing: the slot found is its own, and so is the direction. */
    method SlotForId(id: nat) returns (r: Option<(nat, bool)>)
      requires Valid()
      ensures r.Some? ==> Live(pipes, r.value.0) && id == pipes[r.value.0].value.baseId + (if r.value.1 then 1 else 0)
      ensures r.None? ==> forall i :: Live(pipes, i) ==> id != pipes[i].value.baseId && id != pipes[i].value.baseId + 1
    {
      if id == 0 {
        return None;
      }
      for i := 0 to |pipes|
        invariant forall j :: 0 <= j < i ==> !Matches(pipes[j], id)
      {
        if Matches(pipes[i], id) {
          return Some((i, id != pipes[i].value.baseId));
        }
      }
      assert forall i :: Live(pipes, i) ==> !Matches(pipes[i], id);
      return None;
    }

    /** Read the oldest buffered bytes. */
    method Read(idx: nat, buf: array<Byte>) returns (n: nat)
      requires Valid()
      modifies this`pipes, this`delivered, buf
      ensures Valid() && n <= buf.Length && buf[n..] == old(buf[n..])
      ensures !Live(old(pipes), idx) || !old(pipes)[idx].value.readOpen ==>
                n == 0 && pipes == old(pipes) && delivered == old(delivered)
      ensures Live(old(pipes), idx) && old(pipes)[idx].value.readOpen ==>
                var p := old(pipes)[idx].value;
                && n == (if buf.Length < |p.buffer| then buf.Length else |p.buffer|)
                && buf[..n] == p.buffer[..n]
                && pipes == old(pipes)[idx := Some(p.(buffer := p.buffer[n..]))]
                && delivered == old(delivered)[p.baseId := old(delivered)[p.baseId] + buf[..n]]
    {
      if idx >= |pipes| || pipes[idx].None? || !pipes[idx].value.readOpen {
        return 0;
      }
      var p := pipes[idx].value;
      n := if buf.Length < |p.buffer| then buf.Length else |p.buffer|;
      assert Live(pipes, idx);
      Fill(buf, p.buffer, n);
      Takes(delivered[p.baseId], p.buffer, n);
      delivered := delivered[p.baseId := delivered[p.baseId] + p.buffer[..n]];
      pipes := pipes[idx := Some(p.(buffer := p.buffer[n..]))];
    }

    /** Append as many bytes as fit. */
    method Write(idx: nat, data: seq<Byte>) returns (n: nat)
      requires Valid()
      modifies this`pipes, this`accepted
      ensures Valid() && n <= |data|
      ensures !Live(old(pipes), idx) || !old(pipes)[idx].value.writeOpen ==>
                n == 0 && pipes == old(pipes) && accepted == old(accepted)
      ensures Live(old(pipes), idx) && old(pipes)[idx].value.writeOpen ==>
                var p := old(pipes)[idx].value;
                && n == (if |data| < PIPE_BUFFER_SIZE - |p.buffer| then |data| else PIPE_BUFFER_SIZE - |p.buffer|)
                && pipes == old(pipes)[idx := Some(p.(buffer := p.buffer + data[..n]))]
                && accepted == old(accepted)[p.baseId := old(accepted)[p.baseId] + data[..n]]
    {
      if idx >= |pipes| || pipes[idx].None? || !pipes[idx].value.writeOpen {
        return 0;
      }
      var p := pipes[idx].value;
      assert Live(pipes, idx);
      n := if |data| < PIPE_BUFFER_SIZE - |p.buffer| then |data| else PIPE_BUFFER_SIZE - |p.buffer|;
      var buffer := p.buffer;
      for i := 0 to n
        invariant buffer == p.buffer + data[..i]
      {
        buffer := buffer + [data[i]];
        assert data[..i + 1] == data[..i] + [data[i]];
      }
      assert delivered[p.baseId] + p.buffer + data[..n] == delivered[p.baseId] + (p.buffer + data[..n]);
      accepted := accepted[p.baseId := accepted[p.baseId] + data[..n]];
      pipes := pipes[idx := Some(p.(buffer := buffer))];
    }

    /** Close one end; the slot is reclaimed when both are closed. */
    method CloseEnd(idx: nat, isRead: bool)
      requires Valid()
      modifies this`pipes
      ensures Valid()
      ensures !Live(old(pipes), idx) ==> pipes == old(pipes)
      ensures Live(old(pipes), idx) ==>
                var p := old(pipes)[idx].value;
                var q := if isRead then p.(readOpen := false) else p.(writeOpen := false);
                pipes == old(pipes)[idx := if q.readOpen || q.writeOpen then Some(q) else None]
    {
      if idx >= |pipes| || pipes[idx].None? {
        return;
      }
      var p := pipes[idx].value;
      assert Live(pipes, idx);
      p := if isRead then p.(readOpen := false) else p.(writeOpen := false);
      pipes := pipes[idx := Some(p)];
      if !p.readOpen && !p.writeOpen {
        pipes := pipes[idx := None];
      }
    }
  }

  method Fill(buf: array<Byte>, bytes: seq<Byte>, n: nat)
    requires n <= buf.Length && n <= |bytes|
    modifies buf
    ensures buf[..n] == bytes[..n] && buf[n..] == old(buf[n..])
  {
    for i := 0 to n
      invariant buf[..i] == bytes[..i] && forall j :: i <= j < buf.Length ==> buf[j] == old(buf[j])
    {
      buf[i] := bytes[i];
    }
  }

  lemma Takes(delivered: seq<Byte>, buffer: seq<Byte>, n: nat)
    requires n <= |buffer|
    ensures delivered + buffer[..n] + buffer[n..] == delivered + buffer
  {
    assert buffer[..n] + buffer[n..] == buffer;
  }
}
