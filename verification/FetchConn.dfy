/** The connection object the FETCH pump works on: output buffer and generator
    updated in place. */
module FetchConn {
  import opened Common
  import opened FetchPump

  /** What one send returns. */
  datatype Sent = Wrote(n: nat) | WouldBlock | Failed

  /** What was on the wire, and the first `k` queued bytes. */
  function Drained(c: Conn, k: nat): string
    requires c.off + k <= |c.out|
  {
    c.wire + c.out[c.off..c.off + k]
  }

  lemma DrainedNone(c: Conn)
    ensures Drained(c, 0) == c.wire
  {
  }

  lemma DrainedMore(c: Conn, k: nat, n: nat)
    requires c.off + k + n <= |c.out|
    ensures Drained(c, k + n) == Drained(c, k) + c.out[c.off + k..c.off + k + n]
  {
    Cut(c.out, c.off, k, k + n);
    Assoc(c.wire, c.out[c.off..c.off + k], c.out[c.off + k..c.off + k + n]);
  }

  /** The flush in which the socket takes `k` bytes and then stops, or all. */
  lemma FlushIs(c: Conn, k: nat, w: Socket)
    requires c.off + k <= |c.out| && w.n == k && (c.dead ==> k == 0)
    ensures Flush(c, w)
         == if c.off + k == |c.out| then c.(wire := Drained(c, k), out := "", off := 0)
            else if w.Takes? && !c.dead then c.(wire := Drained(c, k), off := c.off + k)
            else Conn(Drained(c, k), "", 0, true, true)
  {
    DrainedNone(c);
  }

  class Connection {
    const job: Job
    var wire: string
    var out: string
    var off: nat
    var dead: bool
    var closed: bool
    var fg: bool
    var buf: string
    var phase: Phase
    var msg: nat
    var item: nat
    var sep: bool
    var skip: nat
    var left: nat

    ghost predicate Valid()
      reads this
    {
      && off <= |out| && (dead ==> closed)
      && (fg ==> InPhase(job, G()))
    }

    ghost function C(): Conn
      reads this
      requires off <= |out| && (dead ==> closed)
    {
      Conn(wire, out, off, dead, closed)
    }

    ghost function G(): Gen
      reads this
    {
      Gen(buf, phase, msg, item, sep, skip, left)
    }

    ghost function Now(): State
      reads this
      requires Valid()
    {
      State(C(), if fg then Some(G()) else None)
    }

    /** do_fetch attaches a generator to a connection with replies queued. */
    constructor (job: Job, out: string, off: nat)
      requires off <= |out| && job.msgs != []
      ensures Valid() && this.job == job && Now() == Begin(out, off)
    {
      this.job := job;
      this.wire, this.out, this.off, dead, closed, fg := "", out, off, false, false, true;
      buf, phase, msg, item, sep, skip, left := "", MsgStart, 0, 0, false, 0, 0;
    }

    /** The socket: a dead one fails, any other answer is possible. */
    method Send(limit: nat) returns (r: Sent)
      requires limit > 0
      ensures r.Wrote? ==> 0 < r.n <= limit && !dead
      ensures dead ==> r.Failed?
    {
      var n: nat := *;
      if dead {
        r := Failed;
      } else if 0 < n <= limit {
        r := Wrote(n);
      } else if n == 0 {
        r := WouldBlock;
      } else {
        r := Failed;
      }
    }

    method ConnFlush() returns (ghost w: Socket)
      requires off <= |out| && (dead ==> closed)
      modifies this`wire, this`out, this`off, this`dead, this`closed
      ensures off <= |out| && (dead ==> closed)
      ensures C() == Flush(old(C()), w)
    {
      hide Flush, Drained;
      ghost var c, taken: nat := C(), 0;
      DrainedNone(c);
      while off < |out|
        invariant off == c.off + taken <= |out| && dead == c.dead && closed == c.closed && out == c.out
        invariant wire == Drained(c, taken)
        invariant dead ==> taken == 0
        decreases |out| - off
      {
        var r := Send(|out| - off);
        match r {
          case Wrote(n) =>
            DrainedMore(c, taken, n);
            wire := wire + out[off..off + n];
            off := off + n;
            taken := taken + n;
          case WouldBlock =>
            w := Takes(taken);
            FlushIs(c, taken, w);
            return;
          case Failed =>
            w := Breaks(taken);
            FlushIs(c, taken, w);
            closed, dead, out, off := true, true, "", 0;
            return;
        }
      }
      w := Takes(taken);
      FlushIs(c, taken, w);
      out, off := "", 0;
    }

    /** gen_flush: the generator's text goes out, or the connection is closed. */
    method GenFlush() returns (ghost w: Socket)
      requires off <= |out| && (dead ==> closed)
      modifies this`wire, this`out, this`off, this`dead, this`closed, this`buf
      ensures off <= |out| && (dead ==> closed)
      ensures C() == FlushText(old(C()), old(buf), w)
      ensures buf == Kept(old(C()), old(buf))
    {
      w := Takes(0);
      if buf == "" { return; }
      if |out| > MAX_OUT {
        closed := true;
        return;
      }
      out := out + buf;
      buf := "";
      if |out| - off >= HALF_OUT {
        w := ConnFlush();
      }
    }

    /** The loop of stream_lit: chunks of at most 16384 bytes until the output is
        half full or the literal is finished. */
    method FillOutput(src: string)
      requires off <= |out| && skip + left <= |src|
      modifies this`out, this`skip, this`left
      ensures off <= |out|
      ensures var n := Min(old(left), if old(|out|) - off >= HALF_OUT then 0 else HALF_OUT - (old(|out|) - off));
              && out == old(out) + src[old(skip)..old(skip) + n]
              && skip == old(skip) + n && left == old(left) - n
    {
      ghost var before, from, sent: nat := out, skip, 0;
      NoMore(before);
      while left > 0
        invariant sent <= old(left) && skip == from + sent && left == old(left) - sent
        invariant out == before + src[from..from + sent]
        invariant sent > 0 ==> |out| - off <= HALF_OUT
        decreases left
      {
        var used := |out| - off;
        if used >= HALF_OUT { return; }
        var want := Min(Min(left, CHUNK), HALF_OUT - used);
        Filled(before, src, from, sent, want);
        out := out + src[skip..skip + want];
        skip := skip + want;
        left := left - want;
        sent := sent + want;
      }
    }

    /** stream_lit: the announcement, then as much of the literal as fits. */
    method StreamLiteral() returns (ghost w: Socket)
      requires Valid() && fg && phase == Lit
      modifies this`wire, this`out, this`off, this`dead, this`closed, this`buf
      modifies this`phase, this`item, this`sep, this`skip, this`left
      ensures Valid()
      ensures (C(), G()) == StreamLit(job, old(C()), old(G()), w)
    {
      hide FlushText, Kept;
      w := GenFlush();
      FillOutput(job.msgs[msg].items[item].src);
      if left > 0 { return; }
      skip := 0;
      item := item + 1;
      sep := true;
      phase := Items;
    }

    /** emit_item: small values into the buffer, large literals to the streaming phase. */
    method EmitItem()
      requires Valid() && fg && phase == Items && AtItem(job, G())
      modifies this`buf, this`phase, this`skip, this`left, this`item, this`sep
      ensures Valid()
      ensures G() == Emit(job, old(G()))
    {
      var it := job.msgs[msg].items[item];
      if sep { buf := buf + " "; }
      assert buf == old(buf) + Sep(sep);
      if it.Plain? || it.len <= INLINE_LIT {
        buf := buf + ItemText(it);
        item := item + 1;
        sep := true;
      } else {
        buf := buf + Marker(it);
        skip := it.skip;
        left := it.len;
        phase := Lit;
      }
    }

    /** One pass of the pump's loop. */
    method Step() returns (ghost w: Socket)
      requires Valid() && fg && phase != Done && !closed
      modifies this
      ensures Valid() && fg
      ensures (C(), G()) == Turn(job, old(C()), old(G()), w)
    {
      hide StreamLit;
      w := Takes(0);
      match phase {
        case MsgStart =>
          buf := Head(job.msgs[msg]);
          item := 0;
          sep := false;
          phase := Items;
        case Items =>
          if item < |job.msgs[msg].items| {
            EmitItem();
          } else {
            buf := buf + Close();
            w := GenFlush();
            if closed { return; }
            msg := msg + 1;
            phase := if msg < |job.msgs| then MsgStart else Done;
          }
        case Lit =>
          w := StreamLiteral();
      }
    }

    /** The tagged completion, and the generator is freed. */
    method TaggedReply() returns (ghost w: Socket)
      requires Valid() && fg
      modifies this`wire, this`out, this`off, this`dead, this`closed, this`fg
      ensures Valid() && !fg
      ensures C() == Reply(old(C()), Tagged(job), w)
    {
      w := Takes(0);
      if |out| > MAX_OUT {
        closed := true;
      } else {
        out := out + Tagged(job);
        w := ConnFlush();
      }
      fg := false;
    }

    /** imapd_fetch_pump: passes until the output is half full, the connection is
        closed or the command is answered. What it does is a run of the pump. */
    method Pump() returns (ghost es: seq<Event>)
      requires Valid()
      modifies this
      ensures Valid()
      ensures IsRun(job, old(Now()), es) && Now() == Outcome(job, old(Now()), es)
      ensures fg ==> closed || Pending(C()) >= HALF_OUT
    {
      es := [];
      if !fg { return; }
      while !closed && phase != Done && |out| - off < HALF_OUT
        invariant Valid() && fg
        invariant IsRun(job, old(Now()), es) && Now() == Outcome(job, old(Now()), es)
        decreases !closed, MessagesLeft(job, G()), StagesLeft(job, G()), TextLeft(G())
      {
        ghost var c, g := C(), G();
        ghost var w := Step();
        PassProgress(job, c, g, w);
        Extend(job, old(Now()), es, Pass(w));
        es := es + [Pass(w)];
      }
      if !closed && phase == Done {
        ghost var w := GenFlush();
        w := TaggedReply();
        Extend(job, old(Now()), es, Finish(w));
        es := es + [Finish(w)];
      }
    }
  }
}
