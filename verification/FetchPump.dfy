/** The FETCH generator: a resumable state machine that renders one response per
    message into the connection's output buffer while the socket drains it. */
module FetchPump {
  import opened Common

  const MAX_OUT: nat := 256 * 1024
  const HALF_OUT: nat := MAX_OUT / 2
  const INLINE_LIT: nat := 16 * 1024
  const CHUNK: nat := 16384

  // ---------------------------------------------------------------------
  // The region of a literal
  // ---------------------------------------------------------------------

  /** Which part of the message a literal item asks for. `Span` is a MIME part
      resolved to its start, end and header end. */
  datatype Section =
    | Whole
    | Header
    | Text
    | SpanHeader(start: nat, end: nat, hdrEnd: nat)
    | SpanText(start: nat, end: nat, hdrEnd: nat)
    | Span(start: nat, end: nat)

  /** `<off.len>`. */
  datatype Partial = NoPartial | Partial(off: nat, len: nat)

  predicate SectionOk(sec: Section, size: nat) {
    match sec
    case SpanHeader(s, e, h) => s <= h <= e <= size
    case SpanText(s, e, h) => s <= h <= e <= size
    case Span(s, e) => s <= e <= size
    case _ => true
  }

  /** First byte and length of the section before any partial is applied. */
  function SectionRegion(sec: Section, size: nat, hdrEnd: nat): (nat, nat) {
    match sec
    case Whole => (0, size)
    case Header => (0, hdrEnd)
    case Text => (hdrEnd, if size > hdrEnd then size - hdrEnd else 0)
    case SpanHeader(s, e, h) => (s, if h > s then h - s else 0)
    case SpanText(s, e, h) => (h, if e > h then e - h else 0)
    case Span(s, e) => (s, if e > s then e - s else 0)
  }

  /** A region narrowed by a partial. */
  function Narrow(skip: nat, len: nat, p: Partial): (nat, nat) {
    match p
    case NoPartial => (skip, len)
    case Partial(off, n) =>
      if off >= len then (skip + len, 0)
      else (skip + off, if 0 < n < len - off then n else len - off)
  }

  /** lit_region. */
  function Region(sec: Section, p: Partial, size: nat, hdrEnd: nat): (nat, nat) {
    var (skip, len) := SectionRegion(sec, size, hdrEnd);
    Narrow(skip, len, p)
  }

  /** The bytes a partial picks out of a section: from `off`, at most `n` of them,
      all the rest when `n` is zero. */
  function Window(bytes: string, p: Partial): string {
    match p
    case NoPartial => bytes
    case Partial(off, n) =>
      if off >= |bytes| then ""
      else if n == 0 || n > |bytes| - off then bytes[off..] else bytes[off..off + n]
  }

  function SectionBytes(sec: Section, src: string, hdrEnd: nat): string
    requires SectionOk(sec, |src|) && hdrEnd <= |src|
  {
    match sec
    case Whole => src
    case Header => src[..hdrEnd]
    case Text => src[hdrEnd..]
    case SpanHeader(s, e, h) => src[s..h]
    case SpanText(s, e, h) => src[h..e]
    case Span(s, e) => src[s..e]
  }

  lemma SectionIsRegion(sec: Section, src: string, hdrEnd: nat)
    requires SectionOk(sec, |src|) && hdrEnd <= |src|
    ensures var (a, n) := SectionRegion(sec, |src|, hdrEnd);
            a + n <= |src| && SectionBytes(sec, src, hdrEnd) == src[a..a + n]
  {
    match sec
    case Whole => assert src == src[0..|src|];
    case Header => assert src[..hdrEnd] == src[0..hdrEnd];
    case _ =>
  }

  lemma SliceOfSlice(src: string, a: nat, n: nat, off: nat, len: nat)
    requires a + n <= |src| && off + len <= n
    ensures src[a..a + n][off..off + len] == src[a + off..a + off + len]
  {
    var x, y := src[a..a + n][off..off + len], src[a + off..a + off + len];
    forall k | 0 <= k < len ensures x[k] == y[k] {
      assert x[k] == src[a..a + n][off + k] == src[a + (off + k)];
    }
  }

  lemma TailSlice(s: string, k: nat)
    requires k <= |s|
    ensures s[k..] == s[k..|s|]
  {
  }

  lemma NarrowIsWindow(src: string, a: nat, n: nat, p: Partial)
    requires a + n <= |src|
    ensures var (skip, len) := Narrow(a, n, p);
            skip + len <= |src| && src[skip..skip + len] == Window(src[a..a + n], p)
  {
    if p.Partial? && p.off < n {
      var len := if 0 < p.len < n - p.off then p.len else n - p.off;
      SliceOfSlice(src, a, n, p.off, len);
      TailSlice(src[a..a + n], p.off);
    }
  }

  /** The region stays inside the message and holds exactly the window of the section. */
  lemma RegionIsWindow(sec: Section, p: Partial, src: string, hdrEnd: nat)
    requires SectionOk(sec, |src|) && hdrEnd <= |src|
    ensures var (skip, len) := Region(sec, p, |src|, hdrEnd);
            && skip + len <= |src|
            && src[skip..skip + len] == Window(SectionBytes(sec, src, hdrEnd), p)
  {
    hide SectionRegion, SectionBytes, SectionOk, Narrow, Window;
    SectionIsRegion(sec, src, hdrEnd);
    var (a, n) := SectionRegion(sec, |src|, hdrEnd);
    NarrowIsWindow(src, a, n, p);
  }

  // ---------------------------------------------------------------------
  // The sequential rendering
  // ---------------------------------------------------------------------

  /** A value emitted whole, or a literal: `len` bytes of `src` from `skip`. */
  datatype AnyItem = Plain(text: string) | Literal(name: string, src: string, skip: nat, len: nat)

  type Item = it: AnyItem | it.Literal? ==> it.skip + it.len <= |it.src| witness Plain("")

  datatype Message = Message(number: nat, items: seq<Item>)

  /** One FETCH command: its tag and the messages it selects. */
  datatype Job = Job(tag: string, msgs: seq<Message>)

  function Marker(it: Item): string
    requires it.Literal?
  {
    it.name + " {" + Digits(it.len) + "}\r\n"
  }

  function Slice(it: Item): string
    requires it.Literal?
  {
    it.src[it.skip..it.skip + it.len]
  }

  function ItemText(it: Item): string {
    match it
    case Plain(t) => t
    case Literal(_, _, _, _) => Marker(it) + Slice(it)
  }

  function Sep(sep: bool): string {
    if sep then " " else ""
  }

  /** A client that reads the announced length finds exactly the literal's bytes
      in that many characters after the announcement, whatever follows. */
  lemma AnnouncedLength(it: Item, more: string)
    requires it.Literal?
    ensures var t, m := ItemText(it) + more, |Marker(it)|;
            && Number(t, |it.name| + 2, 0) == it.len
            && m + it.len <= |t| && t[m..m + it.len] == Slice(it)
  {
    var t := ItemText(it) + more;
    var p, q := |it.name| + 2, |it.name| + 2 + |Digits(it.len)|;
    assert Marker(it) == it.name + " {" + Digits(it.len) + "}\r\n";
    assert forall k :: 0 <= k < |Digits(it.len)| ==> t[p + k] == Digits(it.len)[k];
    assert t[q] == '}';
    ReadDigits(t, p, it.len);
  }

  function Close(): string {
    ")\r\n"
  }

  /** Items `i` onward, space separated, and the closing parenthesis. */
  function ItemsText(items: seq<Item>, i: nat, sep: bool): string
    requires i <= |items|
    decreases |items| - i
  {
    if i == |items| then Close() else Sep(sep) + ItemText(items[i]) + ItemsText(items, i + 1, true)
  }

  function Head(m: Message): string {
    "* " + Digits(m.number) + " FETCH ("
  }

  /** A client that reads a response up to its list finds the message's number. */
  lemma HeadIsRead(m: Message, more: string)
    ensures var t, n := Head(m) + more, 2 + |Digits(m.number)|;
            && |Head(m)| == n + 8 && t[..2] == "* " && Number(t, 2, 0) == m.number && t[n..n + 8] == " FETCH ("
  {
    var t, n := Head(m) + more, 2 + |Digits(m.number)|;
    assert t == "* " + Digits(m.number) + (" FETCH (" + more);
    assert forall k :: 0 <= k < |Digits(m.number)| ==> t[2 + k] == Digits(m.number)[k];
    assert t[n] == ' ';
    ReadDigits(t, 2, m.number);
  }

  function Tagged(j: Job): string {
    j.tag + " OK FETCH completed\r\n"
  }

  /** Responses of messages `i` onward and the tagged completion. */
  function Responses(j: Job, i: nat): string
    requires i <= |j.msgs|
    decreases |j.msgs| - i
  {
    if i == |j.msgs| then Tagged(j)
    else Head(j.msgs[i]) + (ItemsText(j.msgs[i].items, 0, false) + Responses(j, i + 1))
  }

  /** The items of a response, one space between them. */
  function Spaced(items: seq<Item>): string {
    if items == [] then ""
    else if |items| == 1 then ItemText(items[0])
    else Spaced(items[..|items| - 1]) + " " + ItemText(items[|items| - 1])
  }

  lemma {:induction false} ItemsAreSpaced(items: seq<Item>, i: nat)
    requires i <= |items|
    ensures Spaced(items[..i]) + ItemsText(items, i, i > 0) == Spaced(items) + ")\r\n"
    decreases |items| - i
  {
    hide ItemText;
    if i == |items| {
      assert items[..i] == items;
    } else {
      ItemsAreSpaced(items, i + 1);
      var more := items[..i + 1];
      assert more[..|more| - 1] == items[..i] && more[|more| - 1] == items[i];
      var rest := ItemsText(items, i + 1, true);
      assert Spaced(more) == Spaced(items[..i]) + Sep(i > 0) + ItemText(items[i]);
      Assoc(Spaced(items[..i]), Sep(i > 0) + ItemText(items[i]), rest);
      Assoc(Spaced(items[..i]), Sep(i > 0), ItemText(items[i]));
    }
  }

  /** A response is the message's number and its items in parentheses. */
  lemma ResponseFormat(j: Job, i: nat)
    requires i < |j.msgs|
    ensures Responses(j, i)
         == "* " + Digits(j.msgs[i].number) + " FETCH (" + Spaced(j.msgs[i].items) + ")\r\n" + Responses(j, i + 1)
  {
    hide Digits, Spaced, ItemsText;
    ItemsAreSpaced(j.msgs[i].items, 0);
    assert j.msgs[i].items[..0] == [];
    NothingSpaced();
    var head, items, rest := Head(j.msgs[i]), ItemsText(j.msgs[i].items, 0, false), Responses(j, i + 1);
    NoMore(items);
    Assoc(head, items, rest);
    Assoc(head, Spaced(j.msgs[i].items), ")\r\n");
  }

  lemma NothingSpaced()
    ensures Spaced([]) == ""
  {
  }

  /** Behind the last response stands the tagged completion. */
  lemma CompletionFormat(j: Job)
    ensures Responses(j, |j.msgs|) == j.tag + " OK FETCH completed\r\n"
  {
  }

  // ---------------------------------------------------------------------
  // The connection's output
  // ---------------------------------------------------------------------

  /** What one flush meets: the socket takes at most `n` bytes and then would
      block, or takes `n` bytes and fails for good. */
  datatype Socket = Takes(n: nat) | Breaks(n: nat)

  /** `wire` is what the socket took so far; out[off..] is still to be sent. */
  datatype AnyConn = Conn(wire: string, out: string, off: nat, dead: bool, closed: bool)

  type Conn = c: AnyConn | c.off <= |c.out| && (c.dead ==> c.closed) witness Conn("", "", 0, false, false)

  function Pending(c: Conn): nat {
    |c.out| - c.off
  }

  /** Every byte sent or still to be sent. */
  function Stream(c: Conn): string {
    c.wire + if c.dead then "" else c.out[c.off..]
  }

  function Min(a: nat, b: nat): nat {
    if a < b then a else b
  }

  /** conn_flush. */
  function Flush(c: Conn, w: Socket): Conn {
    if c.off == |c.out| then c.(out := "", off := 0)
    else if c.dead then c.(out := "", off := 0)
    else
      var k := Min(w.n, Pending(c));
      var wire := c.wire + c.out[c.off..c.off + k];
      if c.off + k == |c.out| then c.(wire := wire, out := "", off := 0)
      else if w.Takes? then c.(wire := wire, off := c.off + k)
      else Conn(wire, "", 0, true, true)
  }

  function Queue(c: Conn, text: string): Conn {
    c.(out := c.out + text)
  }

  /** gen_flush: the text goes to the output unless the buffer is past its limit. */
  function FlushText(c: Conn, text: string, w: Socket): Conn {
    if text == "" then c
    else if |c.out| > MAX_OUT then c.(closed := true)
    else
      var d := Queue(c, text);
      if Pending(d) >= HALF_OUT then Flush(d, w) else d
  }

  /** conn_reply. */
  function Reply(c: Conn, text: string, w: Socket): Conn {
    if |c.out| > MAX_OUT then c.(closed := true) else Flush(Queue(c, text), w)
  }

  /** Flushing loses bytes only by closing a dead connection. */
  lemma FlushStream(c: Conn, w: Socket)
    ensures var r := Flush(c, w);
            && Stream(r) <= Stream(c) && (!r.closed ==> Stream(r) == Stream(c))
            && (c.closed ==> r.closed)
  {
    if c.off < |c.out| && !c.dead {
      var k := Min(w.n, Pending(c));
      var x, y := c.out[c.off..c.off + k], c.out[c.off + k..];
      assert c.out[c.off..] == x + y;
      assert c.wire + (x + y) == c.wire + x + y;
      assert k == Pending(c) ==> y == "" && c.wire + x + "" == c.wire + x;
    }
  }

  lemma QueueStream(c: Conn, text: string)
    ensures Stream(Queue(c, text)) == Stream(c) + if c.dead then "" else text
  {
    assert Queue(c, text).out[c.off..] == c.out[c.off..] + text;
  }

  /** Text is queued whole and in order, or the connection is closed. */
  lemma FlushTextStream(c: Conn, text: string, w: Socket)
    requires !c.closed
    ensures var r := FlushText(c, text, w);
            if r.closed then Stream(r) <= Stream(c) + text else Stream(r) == Stream(c) + text
    ensures text != "" && |c.out| > MAX_OUT ==> FlushText(c, text, w) == c.(closed := true)
    ensures FlushText(c, text, w).closed && !(text != "" && |c.out| > MAX_OUT) ==> FlushText(c, text, w).dead
  {
    QueueStream(c, text);
    FlushStream(Queue(c, text), w);
    assert text == "" ==> Stream(c) + text == Stream(c);
    assert Stream(c.(closed := true)) == Stream(c);
  }

  // ---------------------------------------------------------------------
  // The generator
  // ---------------------------------------------------------------------

  datatype Phase = MsgStart | Items | Lit | Done

  datatype Gen = Gen(buf: string, phase: Phase, msg: nat, item: nat, sep: bool, skip: nat, left: nat)

  const FRESH: Gen := Gen("", MsgStart, 0, 0, false, 0, 0)

  ghost predicate AtItem(j: Job, g: Gen) {
    g.msg < |j.msgs| && g.item < |j.msgs[g.msg].items|
  }

  function Current(j: Job, g: Gen): Item
    requires AtItem(j, g)
  {
    j.msgs[g.msg].items[g.item]
  }

  /** A literal of the current message is being streamed: `left` bytes remain. */
  ghost predicate AtLiteral(j: Job, g: Gen) {
    && AtItem(j, g) && Current(j, g).Literal? && g.left > 0
    && g.skip + g.left == Current(j, g).skip + Current(j, g).len
  }

  ghost predicate InPhase(j: Job, g: Gen) {
    match g.phase
    case MsgStart => g.msg < |j.msgs| && g.buf == ""
    case Items => g.msg < |j.msgs| && g.item <= |j.msgs[g.msg].items|
    case Lit => AtLiteral(j, g)
    case Done => g.msg == |j.msgs| && g.buf == ""
  }

  function Start(j: Job, g: Gen): Gen
    requires g.msg < |j.msgs|
  {
    g.(buf := Head(j.msgs[g.msg]), item := 0, sep := false, phase := Items)
  }

  /** emit_item, with the separator before it. */
  function Emit(j: Job, g: Gen): Gen
    requires AtItem(j, g)
  {
    var it := Current(j, g);
    var buf := g.buf + Sep(g.sep);
    if it.Plain? || it.len <= INLINE_LIT then
      g.(buf := buf + ItemText(it), item := g.item + 1, sep := true)
    else g.(buf := buf + Marker(it), skip := it.skip, left := it.len, phase := Lit)
  }

  /** The end of a message's response once its text is out. */
  function NextMessage(j: Job, g: Gen): Gen {
    g.(buf := "", msg := g.msg + 1, phase := if g.msg + 1 < |j.msgs| then MsgStart else Done)
  }

  /** The literal's next `n` bytes are out. */
  function Advance(g: Gen, n: nat): Gen
    requires n <= g.left
  {
    if n < g.left then g.(skip := g.skip + n, left := g.left - n)
    else g.(skip := 0, left := 0, item := g.item + 1, sep := true, phase := Items)
  }

  /** What the generator has still to produce. */
  function Rest(j: Job, g: Gen): string
    requires InPhase(j, g)
  {
    match g.phase
    case MsgStart => Responses(j, g.msg)
    case Items => ItemsText(j.msgs[g.msg].items, g.item, g.sep) + Responses(j, g.msg + 1)
    case Lit =>
      Current(j, g).src[g.skip..g.skip + g.left]
      + (ItemsText(j.msgs[g.msg].items, g.item + 1, true) + Responses(j, g.msg + 1))
    case Done => Responses(j, g.msg)
  }

  /** What it holds and has still to produce. */
  function Owed(j: Job, g: Gen): string
    requires InPhase(j, g)
  {
    g.buf + Rest(j, g)
  }

  lemma StartOwes(j: Job, g: Gen)
    requires InPhase(j, g) && g.phase == MsgStart
    ensures InPhase(j, Start(j, g)) && Owed(j, Start(j, g)) == Owed(j, g)
  {
    hide ItemsText, Responses, Head;
    ResponsesUnfold(j, g.msg);
    NoMore(Responses(j, g.msg));
  }

  lemma ResponsesUnfold(j: Job, i: nat)
    requires i < |j.msgs|
    ensures Responses(j, i) == Head(j.msgs[i]) + (ItemsText(j.msgs[i].items, 0, false) + Responses(j, i + 1))
  {
    hide ItemsText, Head;
  }

  lemma Regroup(b: string, p: string, x: string, y: string, t: string, z: string)
    ensures b + (p + (x + y) + t + z) == (b + p + x) + (y + (t + z))
  {
    calc {
      b + (p + (x + y) + t + z);
      b + (p + (x + y) + (t + z));
      b + (p + (x + (y + (t + z))));
      (b + p + x) + (y + (t + z));
    }
  }

  lemma ItemsUnfold(j: Job, g: Gen)
    requires InPhase(j, g) && g.phase == Items && AtItem(j, g)
    ensures Rest(j, g) == Sep(g.sep) + ItemText(Current(j, g))
                          + ItemsText(j.msgs[g.msg].items, g.item + 1, true) + Responses(j, g.msg + 1)
  {
    hide Responses, ItemText, Sep, Close;
  }

  lemma LiteralOwes(j: Job, g: Gen)
    requires InPhase(j, g) && g.phase == Items && AtItem(j, g)
    requires Current(j, g).Literal? && Current(j, g).len > INLINE_LIT
    ensures InPhase(j, Emit(j, g)) && Owed(j, Emit(j, g)) == Owed(j, g)
  {
    hide Marker, Sep, Responses, ItemsText;
    ItemsUnfold(j, g);
    var it, h := Current(j, g), Emit(j, g);
    var items, z := ItemsText(j.msgs[g.msg].items, g.item + 1, true), Responses(j, g.msg + 1);
    assert h.buf == g.buf + Sep(g.sep) + Marker(it) && ItemText(it) == Marker(it) + Slice(it);
    assert InPhase(j, h) && Rest(j, h) == Slice(it) + (items + z);
    hide Rest, InPhase, Emit, ItemText, Slice;
    Regroup(g.buf, Sep(g.sep), Marker(it), Slice(it), items, z);
  }

  lemma InlineOwes(j: Job, g: Gen)
    requires InPhase(j, g) && g.phase == Items && AtItem(j, g)
    requires Current(j, g).Plain? || Current(j, g).len <= INLINE_LIT
    ensures InPhase(j, Emit(j, g)) && Owed(j, Emit(j, g)) == Owed(j, g)
  {
    hide Marker, Sep, Responses, ItemsText;
    ItemsUnfold(j, g);
    hide ItemText;
    var it := Current(j, g);
    var items := ItemsText(j.msgs[g.msg].items, g.item + 1, true);
    var z := Responses(j, g.msg + 1);
    var (p, x) := (Sep(g.sep), ItemText(it));
    calc {
      g.buf + (p + x + items + z);
      g.buf + (p + x + (items + z));
      g.buf + (p + x) + (items + z);
    }
  }

  lemma Cut(src: string, a: nat, n: nat, m: nat)
    requires n <= m && a + m <= |src|
    ensures src[a..a + m] == src[a..a + n] + src[a + n..a + m]
  {
  }

  lemma Filled(before: string, src: string, a: nat, n: nat, m: nat)
    requires a + n + m <= |src|
    ensures before + src[a..a + n] + src[a + n..a + n + m] == before + src[a..a + (n + m)]
  {
    Cut(src, a, n, n + m);
    Assoc(before, src[a..a + n], src[a + n..a + n + m]);
  }

  function After(j: Job, g: Gen): string
    requires AtItem(j, g)
  {
    ItemsText(j.msgs[g.msg].items, g.item + 1, true) + Responses(j, g.msg + 1)
  }

  /** The literal's next `n` bytes. */
  function Bytes(j: Job, g: Gen, n: nat): string
    requires AtLiteral(j, g) && n <= g.left
  {
    Current(j, g).src[g.skip..g.skip + n]
  }

  lemma AdvanceWithin(j: Job, g: Gen, n: nat)
    requires InPhase(j, g) && g.phase == Lit && n < g.left
    ensures InPhase(j, Advance(g, n))
    ensures Bytes(j, g, n) + Rest(j, Advance(g, n)) == Rest(j, g)
  {
    hide ItemsText, Responses;
    var src := Current(j, g).src;
    Cut(src, g.skip, n, g.left);
    Assoc(Bytes(j, g, n), src[g.skip + n..g.skip + g.left], After(j, g));
  }

  /** The literal's next bytes, followed by the rest after them. */
  lemma AdvanceRest(j: Job, g: Gen, n: nat)
    requires InPhase(j, g) && g.phase == Lit && n <= g.left
    ensures InPhase(j, Advance(g, n))
    ensures Bytes(j, g, n) + Rest(j, Advance(g, n)) == Rest(j, g)
  {
    hide Rest, Bytes, Advance;
    if n < g.left {
      AdvanceWithin(j, g, n);
    } else {
      AdvanceOver(j, g);
    }
  }

  lemma AdvanceOver(j: Job, g: Gen)
    requires InPhase(j, g) && g.phase == Lit
    ensures InPhase(j, Advance(g, g.left))
    ensures Bytes(j, g, g.left) + Rest(j, Advance(g, g.left)) == Rest(j, g)
  {
    hide ItemsText, Responses;
    assert Rest(j, g) == Bytes(j, g, g.left) + After(j, g);
    assert Rest(j, Advance(g, g.left)) == After(j, g);
  }

  lemma EndOwes(j: Job, g: Gen)
    requires InPhase(j, g) && g.phase == Items && g.item == |j.msgs[g.msg].items|
    ensures InPhase(j, NextMessage(j, g))
    ensures g.buf + Close() + Owed(j, NextMessage(j, g)) == Owed(j, g)
  {
    hide Responses, Close;
    var more := Responses(j, g.msg + 1);
    assert Rest(j, g) == Close() + more;
    assert Owed(j, NextMessage(j, g)) == "" + more;
    hide Rest;
    NoMore(more);
    Assoc(g.buf, Close(), more);
  }

  // ---------------------------------------------------------------------
  // Steps of the pump
  // ---------------------------------------------------------------------

  /** How many literal bytes fit before the output is half full. */
  function Space(c: Conn): nat {
    if Pending(c) >= HALF_OUT then 0 else HALF_OUT - Pending(c)
  }

  /** What gen_flush leaves in the buffer. */
  function Kept(c: Conn, text: string): string {
    if |c.out| > MAX_OUT then text else ""
  }

  /** stream_lit: flush the announcement, then fill the output. It goes on to
      the literal even when that flush closed the connection. */
  function StreamLit(j: Job, c: Conn, g: Gen, w: Socket): (Conn, Gen)
    requires AtLiteral(j, g)
  {
    var d := FlushText(c, g.buf, w);
    var n := Min(g.left, Space(d));
    (Queue(d, Bytes(j, g, n)), Advance(g.(buf := Kept(c, g.buf)), n))
  }

  /** The end of a message's response. */
  function EndMessage(j: Job, c: Conn, g: Gen, w: Socket): (Conn, Gen) {
    var text := g.buf + Close();
    var d := FlushText(c, text, w);
    (d, if d.closed then g.(buf := Kept(c, text)) else NextMessage(j, g))
  }

  /** One pass of the pump's loop. */
  function Turn(j: Job, c: Conn, g: Gen, w: Socket): (Conn, Gen)
    requires InPhase(j, g)
  {
    match g.phase
    case MsgStart => (c, Start(j, g))
    case Items => if g.item < |j.msgs[g.msg].items| then (c, Emit(j, g)) else EndMessage(j, c, g, w)
    case Lit => StreamLit(j, c, g, w)
    case Done => (c, g)
  }

  /** The connection and its generator, gone once the command is answered. */
  datatype State = State(c: Conn, g: Option<Gen>)

  function Coming(j: Job, s: State): string
    requires s.g.Some? ==> InPhase(j, s.g.value)
  {
    if s.g.Some? then Owed(j, s.g.value) else ""
  }

  /** Open: what was sent, is queued and is still to come is the whole reply.
      Closed: what was sent and is queued is a prefix of it. */
  ghost predicate Inv(j: Job, all: string, s: State) {
    && (s.g.Some? ==> InPhase(j, s.g.value))
    && (if s.c.closed then Stream(s.c) <= all else Stream(s.c) + Coming(j, s) == all)
  }

  /** stream_lit is entered with its announcement unflushed and the output
      buffer past its limit. */
  predicate Overfull(c: Conn, g: Gen) {
    g.phase == Lit && g.buf != "" && |c.out| > MAX_OUT
  }

  lemma EndKeeps(j: Job, all: string, c: Conn, g: Gen, w: Socket)
    requires Inv(j, all, State(c, Some(g))) && !c.closed && g.phase == Items
    requires g.item == |j.msgs[g.msg].items|
    ensures var (d, h) := EndMessage(j, c, g, w);
            Inv(j, all, State(d, Some(h)))
  {
    EndOwes(j, g);
    FlushTextStream(c, g.buf + Close(), w);
    var text, h := g.buf + Close(), NextMessage(j, g);
    hide Owed, Stream, FlushText, Close;
    Assoc(Stream(c), text, Owed(j, h));
    assert Stream(c) + text <= all;
  }

  /** The buffer plays no part in what is still to be produced. */
  lemma EmptiedRest(j: Job, g: Gen)
    requires InPhase(j, g)
    ensures InPhase(j, g.(buf := "")) && Owed(j, g.(buf := "")) == Rest(j, g)
  {
    var h := g.(buf := "");
    hide ItemsText, Responses;
    assert Rest(j, h) == Rest(j, g);
    hide Rest;
    NoMore(Rest(j, h));
  }

  /** Once the announcement is out: the next bytes, followed by what is owed. */
  lemma StreamOwes(j: Job, g: Gen, n: nat)
    requires AtLiteral(j, g) && g.phase == Lit && n <= g.left
    ensures var h := Advance(g.(buf := ""), n);
            InPhase(j, h) && Bytes(j, g, n) + Owed(j, h) == Rest(j, g)
  {
    hide Rest, Owed, Bytes;
    assert InPhase(j, g);
    AdvanceRest(j, g, n);
    EmptiedRest(j, Advance(g, n));
    assert Advance(g.(buf := ""), n) == Advance(g, n).(buf := "");
    hide InPhase, AtLiteral, Advance;
  }

  lemma Queued(s: string, b: string, x: string, m: string, all: string)
    requires s + (b + (x + m)) == all
    ensures s + b + x + m == all && s + b <= all && s + b + x <= all
  {
    Assoc(s, b, x + m);
    Assoc(s + b, x, m);
  }

  lemma StreamLitIs(j: Job, c: Conn, g: Gen, w: Socket)
    requires AtLiteral(j, g) && g.phase == Lit && !Overfull(c, g)
    ensures var d := FlushText(c, g.buf, w);
            var n := Min(g.left, Space(d));
            StreamLit(j, c, g, w) == (Queue(d, Bytes(j, g, n)), Advance(g.(buf := ""), n))
  {
    hide FlushText, Bytes, Space;
  }

  lemma StreamKeeps(j: Job, all: string, c: Conn, g: Gen, w: Socket)
    requires Inv(j, all, State(c, Some(g))) && !c.closed && g.phase == Lit && !Overfull(c, g)
    ensures var (d, h) := StreamLit(j, c, g, w);
            Inv(j, all, State(d, Some(h)))
  {
    hide FlushText, Stream, StreamLit, Advance, Bytes, Rest, Space;
    FlushTextStream(c, g.buf, w);
    var d := FlushText(c, g.buf, w);
    var n := Min(g.left, Space(d));
    StreamOwes(j, g, n);
    QueueStream(d, Bytes(j, g, n));
    var h := Advance(g.(buf := ""), n);
    StreamLitIs(j, c, g, w);
    hide InPhase;
    Queued(Stream(c), g.buf, Bytes(j, g, n), Owed(j, h), all);
    NoMore(Stream(d));
    hide Owed;
  }

  /** Every pass keeps the reply in order unless it finds the buffer overfull. */
  lemma TurnKeeps(j: Job, all: string, c: Conn, g: Gen, w: Socket)
    requires Inv(j, all, State(c, Some(g))) && !c.closed && !Overfull(c, g)
    ensures var (d, h) := Turn(j, c, g, w);
            Inv(j, all, State(d, Some(h)))
  {
    match g.phase
    case MsgStart => StartOwes(j, g);
    case Items =>
      if g.item == |j.msgs[g.msg].items| {
        EndKeeps(j, all, c, g, w);
      } else if Current(j, g).Plain? || Current(j, g).len <= INLINE_LIT {
        InlineOwes(j, g);
      } else {
        LiteralOwes(j, g);
      }
    case Lit => StreamKeeps(j, all, c, g, w);
    case Done =>
  }

  lemma PrefixCancel(s: string, x: string, y: string)
    ensures s + x <= s + y <==> x <= y
  {
    if s + x <= s + y {
      assert x == (s + x)[|s|..] && y == (s + y)[|s|..];
      assert (s + x)[|s|..] == (s + y)[|s|..|s| + |x|];
    }
    if x <= y {
      assert s + x == (s + y)[..|s| + |x|];
    }
  }

  /** Bytes stream_lit queues although it could not queue their announcement. */
  function Unannounced(j: Job, c: Conn, g: Gen): string
    requires AtLiteral(j, g)
  {
    Bytes(j, g, Min(g.left, Space(c)))
  }

  lemma OverfullQueues(j: Job, c: Conn, g: Gen, w: Socket)
    requires AtLiteral(j, g) && Overfull(c, g) && !c.closed
    ensures var (d, h) := Turn(j, c, g, w);
            d.closed && Stream(d) == Stream(c) + Unannounced(j, c, g)
  {
    var d := c.(closed := true);
    assert Turn(j, c, g, w).0 == Queue(d, Unannounced(j, c, g));
    QueueStream(d, Unannounced(j, c, g));
  }

  /** A pass leaves a prefix of the reply exactly when the buffer is not overfull,
      or the unannounced bytes happen to read like the announcement. */
  lemma TurnIff(j: Job, all: string, c: Conn, g: Gen, w: Socket)
    requires Inv(j, all, State(c, Some(g))) && !c.closed
    ensures Stream(Turn(j, c, g, w).0) <= all
       <==> !Overfull(c, g) || Unannounced(j, c, g) <= Owed(j, g)
  {
    if Overfull(c, g) {
      OverfullQueues(j, c, g, w);
      hide Owed, Unannounced, Stream, Turn;
      PrefixCancel(Stream(c), Unannounced(j, c, g), Owed(j, g));
    } else {
      TurnKeeps(j, all, c, g, w);
      hide Turn, Stream, Coming, InPhase;
    }
  }

  // ---------------------------------------------------------------------
  // Runs
  // ---------------------------------------------------------------------

  /** A pass of the pump, its tagged reply, or a flush by the poll loop. */
  datatype Event = Pass(w: Socket) | Finish(w: Socket) | Poll(w: Socket)

  ghost predicate Enabled(j: Job, s: State, e: Event) {
    match e
    case Pass(_) =>
      && s.g.Some? && InPhase(j, s.g.value) && s.g.value.phase != Done
      && !s.c.closed && Pending(s.c) < HALF_OUT
    case Finish(_) => s.g.Some? && s.g.value.phase == Done && !s.c.closed
    case Poll(_) => true
  }

  function Apply(j: Job, s: State, e: Event): State
    requires Enabled(j, s, e)
  {
    match e
    case Pass(w) => var (d, h) := Turn(j, s.c, s.g.value, w); State(d, Some(h))
    case Finish(w) => State(Reply(s.c, Tagged(j), w), None)
    case Poll(w) => State(Flush(s.c, w), s.g)
  }

  ghost predicate IsRun(j: Job, s: State, es: seq<Event>)
    decreases es
  {
    es == [] || (Enabled(j, s, es[0]) && IsRun(j, Apply(j, s, es[0]), es[1..]))
  }

  function Outcome(j: Job, s: State, es: seq<Event>): State
    requires IsRun(j, s, es)
    decreases es
  {
    if es == [] then s else Outcome(j, Apply(j, s, es[0]), es[1..])
  }

  /** No pass of the run finds the buffer overfull. */
  ghost predicate NeverOverfull(j: Job, s: State, es: seq<Event>)
    requires IsRun(j, s, es)
    decreases es
  {
    es == []
    || (&& (es[0].Pass? ==> !Overfull(s.c, s.g.value))
        && NeverOverfull(j, Apply(j, s, es[0]), es[1..]))
  }

  lemma FinishKeeps(j: Job, all: string, s: State, w: Socket)
    requires Inv(j, all, s) && Enabled(j, s, Finish(w))
    ensures Inv(j, all, Apply(j, s, Finish(w)))
  {
    var text := Tagged(j);
    QueueStream(s.c, text);
    FlushStream(Queue(s.c, text), w);
    NoMore(text);
    assert Coming(j, s) == text;
    assert Stream(s.c) <= all;
    assert Stream(s.c.(closed := true)) == Stream(s.c);
    hide Stream, Tagged, Flush, Queue;
    NoMore(Stream(Reply(s.c, text, w)));
  }

  lemma PollKeeps(j: Job, all: string, s: State, w: Socket)
    requires Inv(j, all, s)
    ensures Inv(j, all, Apply(j, s, Poll(w)))
  {
    FlushStream(s.c, w);
    hide Stream, Flush, InPhase, Owed;
    assert Stream(s.c) <= all;
  }

  lemma EventKeeps(j: Job, all: string, s: State, e: Event)
    requires Inv(j, all, s) && Enabled(j, s, e)
    requires e.Pass? ==> !Overfull(s.c, s.g.value)
    ensures Inv(j, all, Apply(j, s, e))
  {
    match e
    case Pass(w) => TurnKeeps(j, all, s.c, s.g.value, w);
    case Finish(w) => FinishKeeps(j, all, s, w);
    case Poll(w) => PollKeeps(j, all, s, w);
  }

  lemma {:induction false} RunKeeps(j: Job, all: string, s: State, es: seq<Event>)
    requires Inv(j, all, s) && IsRun(j, s, es) && NeverOverfull(j, s, es)
    ensures Inv(j, all, Outcome(j, s, es))
    decreases es
  {
    if es != [] {
      hide Inv, Apply;
      EventKeeps(j, all, s, es[0]);
      RunKeeps(j, all, Apply(j, s, es[0]), es[1..]);
    }
  }

  /** The connection when the command starts, with earlier replies queued. */
  function Begin(out: string, off: nat): State
    requires off <= |out|
  {
    State(Conn("", out, off, false, false), Some(FRESH))
  }

  lemma BeginInv(j: Job, out: string, off: nat)
    requires off <= |out| && j.msgs != []
    ensures Inv(j, out[off..] + Responses(j, 0), Begin(out, off))
  {
    hide Responses;
    assert Owed(j, FRESH) == "" + Responses(j, 0);
    NoMore(Responses(j, 0));
    NoMore(out[off..]);
  }

  /** Whatever way the socket drains, what is sent and queued is a prefix of the
      sequential rendering, and all of it once the generator is gone without a
      close, in every run in which no pass finds the buffer overfull. */
  lemma StreamIsPrefix(j: Job, out: string, off: nat, es: seq<Event>)
    requires off <= |out| && j.msgs != []
    requires IsRun(j, Begin(out, off), es) && NeverOverfull(j, Begin(out, off), es)
    ensures var s, all := Outcome(j, Begin(out, off), es), out[off..] + Responses(j, 0);
            && Stream(s.c) <= all
            && (s.g.None? && !s.c.closed ==> Stream(s.c) == all)
  {
    var all := out[off..] + Responses(j, 0);
    BeginInv(j, out, off);
    RunKeeps(j, all, Begin(out, off), es);
    var s := Outcome(j, Begin(out, off), es);
    hide Outcome, Stream, Responses, InPhase;
    NoMore(Stream(s.c));
  }

  /** No pass leaves bytes that do not belong where they stand. */
  ghost predicate Framed(j: Job, s: State, es: seq<Event>)
    requires IsRun(j, s, es)
    decreases es
  {
    es == []
    || (&& (es[0].Pass? ==>
              !Overfull(s.c, s.g.value) || Unannounced(j, s.c, s.g.value) <= Owed(j, s.g.value))
        && Framed(j, Apply(j, s, es[0]), es[1..]))
  }

  /** A closed connection only drains: while the socket lives, nothing is added
      and nothing lost. */
  lemma {:induction false} ClosedDrains(j: Job, s: State, es: seq<Event>)
    requires IsRun(j, s, es) && s.c.closed
    ensures Outcome(j, s, es).c.closed && (!Outcome(j, s, es).c.dead ==> Stream(Outcome(j, s, es).c) == Stream(s.c))
    decreases es
  {
    if es != [] {
      var r := Apply(j, s, es[0]);
      ClosedFlush(s.c, es[0].w);
      hide Stream, Apply;
      assert r.c == Flush(s.c, es[0].w);
      ClosedDrains(j, r, es[1..]);
      hide Flush;
      DeadStays(j, r, es[1..]);
    }
  }

  lemma ClosedFlush(c: Conn, w: Socket)
    requires c.closed
    ensures Flush(c, w).closed && (c.dead ==> Flush(c, w).dead)
    ensures !Flush(c, w).dead ==> Stream(Flush(c, w)) == Stream(c)
  {
    if c.off < |c.out| && !c.dead {
      var k := Min(w.n, Pending(c));
      var x, y := c.out[c.off..c.off + k], c.out[c.off + k..];
      assert c.out[c.off..] == x + y;
      assert c.wire + (x + y) == c.wire + x + y;
      assert k == Pending(c) ==> y == "" && c.wire + x + "" == c.wire + x;
    }
  }

  lemma {:induction false} DeadStays(j: Job, s: State, es: seq<Event>)
    requires IsRun(j, s, es) && s.c.closed
    ensures s.c.dead ==> Outcome(j, s, es).c.dead
    decreases es
  {
    if es != [] {
      ClosedFlush(s.c, es[0].w);
      DeadStays(j, Apply(j, s, es[0]), es[1..]);
    }
  }

  /** An overfull pass leaves the generator in a proper phase. */
  lemma OverfullPhase(j: Job, c: Conn, g: Gen, w: Socket)
    requires InPhase(j, g) && Overfull(c, g)
    ensures InPhase(j, Turn(j, c, g, w).1)
  {
    var n := Min(g.left, Space(FlushText(c, g.buf, w)));
    hide FlushText, Space;
    AdvanceRest(j, g, n);
  }

  /** As long as the socket lives: what a run has sent and queued is a prefix of
      the reply if and only if no pass misframed it. */
  lemma {:induction false} RunIff(j: Job, all: string, s: State, es: seq<Event>)
    requires Inv(j, all, s) && IsRun(j, s, es) && !Outcome(j, s, es).c.dead
    ensures Stream(Outcome(j, s, es).c) <= all <==> Framed(j, s, es)
    decreases es
  {
    if es == [] {
      InvPrefix(j, all, s);
    } else {
      var e, r := es[0], Apply(j, s, es[0]);
      if e.Pass? && Overfull(s.c, s.g.value) {
        var g := s.g.value;
        OverfullQueues(j, s.c, g, e.w);
        TurnIff(j, all, s.c, g, e.w);
        OverfullPhase(j, s.c, g, e.w);
        ClosedDrains(j, r, es[1..]);
        hide Stream, Turn, Unannounced, Owed, Overfull;
        if Unannounced(j, s.c, g) <= Owed(j, g) {
          RunIff(j, all, r, es[1..]);
        }
      } else {
        EventKeeps(j, all, s, e);
        hide Inv, Apply, Stream, Overfull;
        RunIff(j, all, r, es[1..]);
      }
    }
  }

  lemma InvPrefix(j: Job, all: string, s: State)
    requires Inv(j, all, s)
    ensures Stream(s.c) <= all
  {
  }

  // ---------------------------------------------------------------------
  // Progress
  // ---------------------------------------------------------------------

  /** Messages still to be answered. */
  function MessagesLeft(j: Job, g: Gen): nat
    requires InPhase(j, g)
  {
    |j.msgs| - g.msg
  }

  /** Stages of the current message still to come. */
  function StagesLeft(j: Job, g: Gen): nat
    requires InPhase(j, g)
  {
    match g.phase
    case MsgStart => 2 * |j.msgs[g.msg].items| + 2
    case Items => 2 * (|j.msgs[g.msg].items| - g.item) + 1
    case Lit => 2 * (|j.msgs[g.msg].items| - g.item)
    case Done => 0
  }

  function TextLeft(g: Gen): nat {
    g.left + |g.buf|
  }

  /** Every pass of an open pump with room in its output makes progress or closes
      the connection: the loop cannot spin. */
  lemma PassProgress(j: Job, c: Conn, g: Gen, w: Socket)
    requires InPhase(j, g) && g.phase != Done && !c.closed && Pending(c) < HALF_OUT
    ensures var (d, h) := Turn(j, c, g, w);
            && InPhase(j, h)
            && (|| d.closed
                || MessagesLeft(j, h) < MessagesLeft(j, g)
                || (&& MessagesLeft(j, h) == MessagesLeft(j, g)
                    && (|| StagesLeft(j, h) < StagesLeft(j, g)
                        || (StagesLeft(j, h) == StagesLeft(j, g) && TextLeft(h) < TextLeft(g)))))
  {
    hide Head, ItemText, Marker, Sep, FlushText, Bytes, Close;
    if g.phase == Lit {
      hide StreamLit;
      LitProgress(j, c, g, w);
    }
  }

  lemma FlushTextCases(c: Conn, text: string, w: Socket)
    requires !c.closed
    ensures text == "" ==> FlushText(c, text, w) == c
    ensures text != "" && |c.out| > MAX_OUT ==> FlushText(c, text, w).closed
  {
  }

  lemma LitProgress(j: Job, c: Conn, g: Gen, w: Socket)
    requires AtLiteral(j, g) && InPhase(j, g) && g.phase == Lit && !c.closed && Pending(c) < HALF_OUT
    ensures var (d, h) := StreamLit(j, c, g, w);
            && InPhase(j, h) && MessagesLeft(j, h) == MessagesLeft(j, g)
            && (|| d.closed || StagesLeft(j, h) < StagesLeft(j, g)
                || (StagesLeft(j, h) == StagesLeft(j, g) && TextLeft(h) < TextLeft(g)))
  {
    hide FlushText, Bytes;
    FlushTextCases(c, g.buf, w);
  }

  // ---------------------------------------------------------------------
  // Replies that fit the buffer
  // ---------------------------------------------------------------------

  /** No more bytes were taken from the buffer than reached the wire, but for
      those taken before the command. */
  predicate Bounded(c: Conn, before: nat) {
    c.off <= |c.wire| + before
  }

  /** The buffer never holds more than the whole reply. */
  lemma BufferBound(j: Job, all: string, s: State, before: nat)
    requires Inv(j, all, s) && Bounded(s.c, before)
    ensures !s.c.dead ==> |s.c.out| <= before + |all|
  {
    assert |Stream(s.c)| <= |all|;
  }

  lemma FlushBound(c: Conn, w: Socket, before: nat)
    requires Bounded(c, before)
    ensures Bounded(Flush(c, w), before) && (Flush(c, w).closed ==> c.closed || Flush(c, w).dead)
    ensures c.dead ==> Flush(c, w).dead
  {
  }

  lemma PassBound(j: Job, s: State, w: Socket, before: nat)
    requires Bounded(s.c, before) && Enabled(j, s, Pass(w)) && |s.c.out| <= MAX_OUT
    ensures var r := Apply(j, s, Pass(w));
            Bounded(r.c, before) && (r.c.closed ==> r.c.dead)
  {
    var c, g := s.c, s.g.value;
    var text := if g.phase == Lit then g.buf else g.buf + Close();
    FlushBound(Queue(c, text), w, before);
    hide Flush, InPhase, Start, Emit, Advance, NextMessage, Bytes, Space;
    var d := FlushText(c, text, w);
    assert Bounded(d, before) && (d.closed ==> d.dead);
  }

  lemma {:induction false} SmallRun(j: Job, all: string, s: State, es: seq<Event>, before: nat)
    requires Inv(j, all, s) && IsRun(j, s, es) && Bounded(s.c, before)
    requires before + |all| <= MAX_OUT && (s.c.closed ==> s.c.dead)
    ensures NeverOverfull(j, s, es)
    ensures Outcome(j, s, es).c.closed ==> Outcome(j, s, es).c.dead
    decreases es
  {
    if es != [] {
      BufferBound(j, all, s, before);
      var e, r := es[0], Apply(j, s, es[0]);
      EventKeeps(j, all, s, e);
      match e {
        case Pass(w) => PassBound(j, s, w, before);
        case Finish(w) => FlushBound(Queue(s.c, Tagged(j)), w, before);
        case Poll(w) => FlushBound(s.c, w, before);
      }
      hide Inv, Turn, Flush, Bounded;
      SmallRun(j, all, r, es[1..], before);
    }
  }

  /** A reply that fits the output buffer with what is already there is never
      misframed, and only a failing socket cuts it short. */
  lemma SmallReplyIsSafe(j: Job, out: string, off: nat, es: seq<Event>)
    requires off <= |out| && j.msgs != [] && |out| + |Responses(j, 0)| <= MAX_OUT
    requires IsRun(j, Begin(out, off), es)
    ensures var s, all := Outcome(j, Begin(out, off), es), out[off..] + Responses(j, 0);
            && Stream(s.c) <= all && (s.c.closed ==> s.c.dead)
            && (s.g.None? && !s.c.dead ==> Stream(s.c) == all)
  {
    BeginInv(j, out, off);
    hide Outcome, Inv, Responses, NeverOverfull, IsRun, Stream;
    SmallRun(j, out[off..] + Responses(j, 0), Begin(out, off), es, off);
    StreamIsPrefix(j, out, off, es);
  }

  // ---------------------------------------------------------------------
  // A reply that is misframed
  // ---------------------------------------------------------------------

  const BIG_SIZE: nat := 300_000

  function BigItem(name: string): Item {
    Literal(name, seq(BIG_SIZE, _ => 'x'), 0, BIG_SIZE)
  }

  /** One message of 300000 bytes, asked for twice. */
  function BigJob(): Job {
    Job("a", [Message(1, [BigItem("BODY[]"), BigItem("RFC822")])])
  }

  lemma ShortMarker(name: string)
    ensures |Marker(BigItem(name))| == |name| + 11
  {
    assert |Digits(3)| == 1;
    assert |Digits(30)| == 2;
    assert |Digits(300)| == 3;
    assert |Digits(3_000)| == 4;
    assert |Digits(30_000)| == 5;
    assert |Digits(300_000)| == 6;
  }

  /** Lengths only: what the buffer holds, what was taken, and where the
      generator stands. */
  ghost predicate Stands(s: State, len: nat, off: nat, item: nat, left: nat) {
    && !s.c.closed && |s.c.out| == len && s.c.off == off && s.g.Some?
    && var g := s.g.value;
       && g.msg == 0 && g.item == item && g.left == left
       && (left > 0 ==> g.phase == Lit && g.skip == BIG_SIZE - left)
       && (left == 0 ==> g.phase == Items)
  }

  /** A slow reader takes one byte less than is queued. */
  lemma SlowPoll(s: State, len: nat, off: nat, left: nat)
    requires Stands(s, len, off, 0, left) && len == off + HALF_OUT
    ensures Stands(State(Flush(s.c, Takes(HALF_OUT - 1)), s.g), len, len - 1, 0, left)
  {
  }

  /** A pass over the literal fills the output up to half its limit. */
  lemma BigPass(s: State, len: nat, off: nat, left: nat, w: Socket)
    requires Stands(s, len, off, 0, left) && s.g.value.buf == "" && len == off + 1
    requires left > 0 && InPhase(BigJob(), s.g.value)
    ensures Enabled(BigJob(), s, Pass(w))
    ensures var r := Apply(BigJob(), s, Pass(w));
            && InPhase(BigJob(), r.g.value) && r.g.value.buf == ""
            && (left >= HALF_OUT ==> Stands(r, off + HALF_OUT, off, 0, left - (HALF_OUT - 1)))
            && (left < HALF_OUT - 1 ==> Stands(r, len + left, off, 1, 0) && r.g.value.sep)
  {
  }

  lemma {:induction false} Extend(j: Job, s: State, es: seq<Event>, e: Event)
    requires IsRun(j, s, es) && Enabled(j, Outcome(j, s, es), e)
    ensures IsRun(j, s, es + [e])
    ensures Outcome(j, s, es + [e]) == Apply(j, Outcome(j, s, es), e)
    decreases es
  {
    hide Apply, Enabled;
    if es == [] {
      assert es + [e] == [e] && [e][1..] == [];
    } else {
      Extend(j, Apply(j, s, es[0]), es[1..], e);
      assert (es + [e])[1..] == es[1..] + [e];
    }
  }

  /** The run `es` from an idle connection leads to `s`, in order so far. */
  ghost predicate Reaches(j: Job, es: seq<Event>, s: State) {
    && IsRun(j, Begin("", 0), es) && Outcome(j, Begin("", 0), es) == s
    && Inv(j, Responses(j, 0), s)
  }

  lemma ReachesNext(j: Job, es: seq<Event>, s: State, e: Event)
    requires Reaches(j, es, s) && Enabled(j, s, e)
    requires e.Pass? ==> !Overfull(s.c, s.g.value)
    ensures Reaches(j, es + [e], Apply(j, s, e))
  {
    hide Apply, Enabled, Inv;
    Extend(j, Begin("", 0), es, e);
    EventKeeps(j, Responses(j, 0), s, e);
  }

  /** The response is announced and the output half full. */
  lemma BigOpening() returns (es: seq<Event>, s: State)
    ensures Reaches(BigJob(), es, s) && s.g.Some?
    ensures Stands(s, HALF_OUT, 0, 0, BIG_SIZE - HALF_OUT + 28) && s.g.value.buf == ""
  {
    var j, w := BigJob(), Takes(0);
    BeginInv(j, "", 0);
    NoMore(Responses(j, 0));
    var s0 := Begin("", 0);
    assert Reaches(j, [], s0);
    hide Reaches;
    ReachesNext(j, [], s0, Pass(w));
    BigHead(w);
    var s1 := Apply(j, s0, Pass(w));
    hide Head, Responses, Inv, FlushText, Turn, Marker, Apply, BigJob, InPhase;
    ReachesNext(j, [] + [Pass(w)], s1, Pass(w));
    var s2 := Apply(j, s1, Pass(w));
    BigFirst(s2, w);
    es := [] + [Pass(w)] + [Pass(w)] + [Pass(w)];
    ReachesNext(j, [] + [Pass(w)] + [Pass(w)], s2, Pass(w));
    s := Apply(j, s2, Pass(w));
  }

  /** The first literal is announced after two passes. */
  lemma BigHead(w: Socket)
    ensures var j := BigJob();
            && Enabled(j, Begin("", 0), Pass(w))
            && var s := Apply(j, Begin("", 0), Pass(w));
               && Enabled(j, s, Pass(w)) && s.g.Some? && s.g.value.phase == Items
               && BigReady(Apply(j, s, Pass(w)))
  {
    var j := BigJob();
    var s := Apply(j, Begin("", 0), Pass(w));
    assert |Head(j.msgs[0])| == 11 && s.g.value.buf == Head(j.msgs[0]);
    hide Head, Marker;
    ShortMarker("BODY[]");
  }

  ghost predicate BigReady(s: State) {
    && s.g.Some? && InPhase(BigJob(), s.g.value) && s.g.value.phase == Lit
    && s.g.value.msg == 0 && s.g.value.item == 0 && s.g.value.left == BIG_SIZE
    && |s.g.value.buf| == 28 && s.c == Conn("", "", 0, false, false)
  }

  lemma BigFirst(s: State, w: Socket)
    requires BigReady(s)
    ensures !Overfull(s.c, s.g.value) && Enabled(BigJob(), s, Pass(w))
    ensures var r := Apply(BigJob(), s, Pass(w));
            Stands(r, HALF_OUT, 0, 0, BIG_SIZE - HALF_OUT + 28) && r.g.value.buf == ""
  {
  }

  /** The slow reader takes all but one byte, and the pump fills up again. */
  lemma SlowRound(es: seq<Event>, s: State, off: nat, left: nat) returns (fs: seq<Event>, r: State)
    requires Reaches(BigJob(), es, s) && Stands(s, off + HALF_OUT, off, 0, left)
    requires s.g.value.buf == "" && left > 0
    ensures Reaches(BigJob(), fs, r) && r.g.Some? && r.g.value.buf == ""
    ensures var taken := off + HALF_OUT - 1;
            && (left >= HALF_OUT ==> Stands(r, taken + HALF_OUT, taken, 0, left - (HALF_OUT - 1)))
            && (left < HALF_OUT - 1 ==> Stands(r, taken + 1 + left, taken, 1, 0) && r.g.value.sep)
  {
    var j, slow, p := BigJob(), Poll(Takes(HALF_OUT - 1)), Pass(Takes(0));
    SlowPoll(s, off + HALF_OUT, off, left);
    ReachesNext(j, es, s, slow);
    var m := Apply(j, s, slow);
    assert m == State(Flush(s.c, Takes(HALF_OUT - 1)), s.g);
    assert InPhase(j, m.g.value) && m.g.value.phase == Lit;
    hide Reaches, Stands, Apply, InPhase, Flush, Turn, BigJob;
    BigPass(m, off + HALF_OUT, off + HALF_OUT - 1, left, Takes(0));
    ReachesNext(j, es + [slow], m, p);
    fs, r := es + [slow] + [p], Apply(j, m, p);
  }

  /** The first literal is out and the buffer past its limit: the reader left
      one byte behind twice. */
  lemma BigMiddle() returns (es: seq<Event>, s: State)
    ensures Reaches(BigJob(), es, s) && s.g.Some? && s.g.value.buf == "" && s.g.value.sep
    ensures Stands(s, BIG_SIZE + 28, 2 * HALF_OUT - 2, 1, 0)
  {
    hide Reaches, Stands, BigJob;
    es, s := BigOpening();
    es, s := SlowRound(es, s, 0, BIG_SIZE - HALF_OUT + 28);
    es, s := SlowRound(es, s, HALF_OUT - 1, BIG_SIZE - 2 * HALF_OUT + 29);
  }

  /** The second literal is announced in the generator while the buffer is past
      its limit. */
  lemma BigOverfull() returns (es: seq<Event>, s: State)
    ensures Reaches(BigJob(), es, s) && s.g.Some? && InPhase(BigJob(), s.g.value)
    ensures Overfull(s.c, s.g.value) && Enabled(BigJob(), s, Pass(Takes(0)))
    ensures s.g.value.item == 1 && s.g.value.msg == 0 && s.g.value.buf[0] == ' '
  {
    hide Reaches, Apply, Stands, BigJob, Enabled, InPhase, Overfull;
    var e := Pass(Takes(0));
    var fs, r := BigMiddle();
    BigSecond(r, BIG_SIZE + 28, 2 * HALF_OUT - 2, Takes(0));
    ReachesNext(BigJob(), fs, r, e);
    es, s := fs + [e], Apply(BigJob(), r, e);
  }

  /** The second literal is announced. */
  lemma BigSecond(s: State, len: nat, off: nat, w: Socket)
    requires Stands(s, len, off, 1, 0) && s.g.value.sep && s.g.value.buf == ""
    requires len > MAX_OUT && off + HALF_OUT > len
    ensures Enabled(BigJob(), s, Pass(w)) && !Overfull(s.c, s.g.value)
    ensures var r := Apply(BigJob(), s, Pass(w));
            && r.g.Some? && InPhase(BigJob(), r.g.value)
            && Overfull(r.c, r.g.value) && Enabled(BigJob(), r, Pass(w))
            && r.g.value.item == 1 && r.g.value.msg == 0 && r.g.value.buf[0] == ' '
  {
    hide Marker;
  }

  /** Closed with bytes queued, a live socket takes them all. */
  lemma DrainedWire(c: Conn)
    requires !c.dead
    ensures Flush(c, Takes(Pending(c))).wire == Stream(c)
  {
    assert c.out[c.off..c.off + Pending(c)] == c.out[c.off..];
    assert c.off == |c.out| ==> c.wire + "" == c.wire;
  }

  /** A slow reader of a FETCH of two large literals is sent bytes of the second
      one without its announcement: what the socket has taken is no prefix of the
      reply. */
  lemma MisframedReply() returns (es: seq<Event>)
    ensures IsRun(BigJob(), Begin("", 0), es)
    ensures !(Outcome(BigJob(), Begin("", 0), es).c.wire <= Responses(BigJob(), 0))
  {
    hide Inv, Responses, Overfull, BigJob, Stream, Flush, Reaches, Apply, Enabled;
    var j, e := BigJob(), Pass(Takes(0));
    var s;
    es, s := BigOverfull();
    ReachesMeans(j, es, s);
    BigLeads(s);
    OverfullPass(j, Responses(j, 0), s, Takes(0));
    Extend(j, Begin("", 0), es, e);
    var r := Apply(j, s, e);
    PollEnabled(j, r, Takes(Pending(r.c)));
    Extend(j, Begin("", 0), es + [e], Poll(Takes(Pending(r.c))));
    es := es + [e] + [Poll(Takes(Pending(r.c)))];
    DrainedWire(r.c);
  }

  lemma PollEnabled(j: Job, s: State, w: Socket)
    ensures Enabled(j, s, Poll(w)) && Apply(j, s, Poll(w)).c == Flush(s.c, w)
  {
  }

  /** Bytes that do not read like their announcement break the prefix. */
  lemma OverfullPass(j: Job, all: string, s: State, w: Socket)
    requires Inv(j, all, s) && Enabled(j, s, Pass(w)) && Misleads(j, s)
    ensures var c := Apply(j, s, Pass(w)).c;
            !c.dead && !(Stream(c) <= all)
  {
    TurnIff(j, all, s.c, s.g.value, w);
    LiveAfterOverfull(j, s.c, s.g.value, w);
  }

  ghost predicate Misleads(j: Job, s: State) {
    && s.g.Some? && InPhase(j, s.g.value) && Overfull(s.c, s.g.value)
    && !(Unannounced(j, s.c, s.g.value) <= Owed(j, s.g.value))
  }

  lemma ReachesMeans(j: Job, es: seq<Event>, s: State)
    requires Reaches(j, es, s)
    ensures IsRun(j, Begin("", 0), es) && Outcome(j, Begin("", 0), es) == s && Inv(j, Responses(j, 0), s)
  {
    hide IsRun, Outcome, Inv;
  }

  lemma LiveAfterOverfull(j: Job, c: Conn, g: Gen, w: Socket)
    requires InPhase(j, g) && Overfull(c, g) && !c.closed
    ensures !Turn(j, c, g, w).0.dead
  {
  }

  /** The literal's bytes do not read like its announcement. */
  lemma BigLeads(s: State)
    requires s.g.Some? && InPhase(BigJob(), s.g.value) && Overfull(s.c, s.g.value)
    requires Enabled(BigJob(), s, Pass(Takes(0)))
    requires s.g.value.item == 1 && s.g.value.msg == 0 && s.g.value.buf[0] == ' '
    ensures Misleads(BigJob(), s)
  {
    assert Unannounced(BigJob(), s.c, s.g.value)[0] == 'x';
    assert Owed(BigJob(), s.g.value)[0] == ' ';
  }
}
