/**
 The cooked console input of src/croi/console_input.c: a raw byte ring, a line discipline with
 echo and backspace, and reads that drain finished lines.
 */
module ConsoleInput {
  import opened Options
  import opened Arithmetic

  const RAW_CAP: nat := 256
  const LINE_CAP: nat := 256

  const BS: u8 := 0x08
  const LF: u8 := 0x0A
  const CR: u8 := 0x0D
  const SPACE: u8 := 0x20
  const DEL: u8 := 0x7F

  // ---- the line discipline as a fold ---------------------------------------------

  /** Finished lines, and the line being typed. */
  datatype Cooked = Cooked(out: seq<u8>, part: seq<u8>)

  predicate IsEnter(b: u8) { b == CR || b == LF }
  predicate IsErase(b: u8) { b == BS || b == DEL }
  predicate IsText(b: u8) { SPACE <= b < DEL }

  function CookStep(c: Cooked, b: u8): Cooked {
    if IsEnter(b) then Cooked(c.out + c.part + [LF], [])
    else if IsErase(b) then (if c.part == [] then c else c.(part := c.part[..|c.part| - 1]))
    else if IsText(b) && |c.part| < LINE_CAP - 1 then c.(part := c.part + [b])
    else c
  }

  function Cook(bytes: seq<u8>): Cooked {
    if bytes == [] then Cooked([], []) else CookStep(Cook(bytes[..|bytes| - 1]), bytes[|bytes| - 1])
  }

  lemma CookSnoc(bytes: seq<u8>, b: u8)
    ensures Cook(bytes + [b]) == CookStep(Cook(bytes), b)
  {
    assert (bytes + [b])[..|bytes|] == bytes;
  }

  /** A line never outgrows its buffer, its terminator included. */
  lemma {:induction false} PartFits(bytes: seq<u8>)
    ensures |Cook(bytes).part| <= LINE_CAP - 1
  {
    if bytes != [] { PartFits(bytes[..|bytes| - 1]); }
  }

  // ---- what the fold computes ----------------------------------------------------------

  /** Every byte counts only through what was cooked before it. */
  lemma {:induction false} SameContinuation(a: seq<u8>, b: seq<u8>, more: seq<u8>)
    requires Cook(a) == Cook(b)
    ensures Cook(a + more) == Cook(b + more)
  {
    if more == [] {
      assert a + more == a && b + more == b;
    } else {
      var front := more[..|more| - 1];
      SameContinuation(a, b, front);
      Snoc(a, more);
      Snoc(b, more);
      CookSnoc(a + front, more[|more| - 1]);
      CookSnoc(b + front, more[|more| - 1]);
    }
  }

  lemma Snoc(a: seq<u8>, b: seq<u8>)
    requires b != []
    ensures a + b == a + b[..|b| - 1] + [b[|b| - 1]]
  {}

  /** Text is added to the line as it is typed. */
  lemma {:induction false} TextTyped(bytes: seq<u8>, text: seq<u8>)
    requires (forall i | 0 <= i < |text| :: IsText(text[i])) && |Cook(bytes).part| + |text| <= LINE_CAP - 1
    ensures Cook(bytes + text) == Cooked(Cook(bytes).out, Cook(bytes).part + text)
  {
    if text == [] {
      assert bytes + text == bytes && Cook(bytes).part + text == Cook(bytes).part;
    } else {
      var front := text[..|text| - 1];
      TextTyped(bytes, front);
      Snoc(bytes, text);
      Snoc(Cook(bytes).part, text);
      CookSnoc(bytes + front, text[|text| - 1]);
    }
  }

  /** A line typed at the start of a line is delivered as it was typed, ended by a line feed. */
  lemma LineCooked(bytes: seq<u8>, text: seq<u8>, enter: u8)
    requires Cook(bytes).part == [] && (forall i | 0 <= i < |text| :: IsText(text[i])) && |text| <= LINE_CAP - 1
    requires IsEnter(enter)
    ensures Cook(bytes + text + [enter]) == Cooked(Cook(bytes).out + text + [LF], [])
  {
    TextTyped(bytes, text);
    assert [] + text == text;
    CookSnoc(bytes + text, enter);
  }

  /** A byte of text and then an erase, anywhere with room for it, is as nothing. */
  lemma EraseUndoes(before: seq<u8>, t: u8, erase: u8, after: seq<u8>)
    requires IsText(t) && IsErase(erase) && |Cook(before).part| < LINE_CAP - 1
    ensures Cook(before + [t, erase] + after) == Cook(before + after)
  {
    assert before + [t, erase] == before + [t] + [erase];
    CookSnoc(before, t);
    CookSnoc(before + [t], erase);
    assert (Cook(before).part + [t])[..|Cook(before).part|] == Cook(before).part;
    SameContinuation(before + [t, erase], before, after);
  }

  /** So is an erase at the start of a line, text beyond a full line, and any other control byte. */
  lemma Ignored(before: seq<u8>, b: u8, after: seq<u8>)
    requires !IsEnter(b)
    requires IsErase(b) ==> Cook(before).part == []
    requires IsText(b) ==> |Cook(before).part| == LINE_CAP - 1
    ensures Cook(before + [b] + after) == Cook(before + after)
  {
    CookSnoc(before, b);
    SameContinuation(before + [b], before, after);
  }

  /** Lines are cooked one by one: what follows an Enter does not depend on what came before. */
  lemma {:induction false} LinesApart(before: seq<u8>, enter: u8, after: seq<u8>)
    requires IsEnter(enter)
    ensures var was, more := Cook(before), Cook(after);
      Cook(before + [enter] + after) == Cooked(was.out + was.part + [LF] + more.out, more.part)
  {
    var first := before + [enter];
    CookSnoc(before, enter);
    if after == [] {
      assert first + after == first && Cook(first).out + [] == Cook(first).out;
    } else {
      var front := after[..|after| - 1];
      LinesApart(before, enter, front);
      Snoc(first, after);
      CookSnoc(first + front, after[|after| - 1]);
      CookBehind(Cook(first).out, Cook(front), after[|after| - 1]);
    }
  }

  /** Finished lines in front change nothing. */
  lemma CookBehind(out: seq<u8>, c: Cooked, b: u8)
    ensures CookStep(Cooked(out + c.out, c.part), b) == Cooked(out + CookStep(c, b).out, CookStep(c, b).part)
  {
    assert out + c.out + c.part + [LF] == out + (c.out + c.part + [LF]);
  }

  // ---- the echo on a terminal ----------------------------------------------------------

  /** The current line of a terminal, with its cursor. */
  datatype Terminal = Terminal(text: seq<u8>, col: nat)

  function Show(t: Terminal, b: u8): Terminal {
    if b == CR then t.(col := 0)
    else if b == LF then Terminal([], t.col)
    else if b == BS then t.(col := if t.col == 0 then 0 else t.col - 1)
    else if t.col < |t.text| then Terminal(t.text[t.col := b], t.col + 1)
    else Terminal(t.text + [b], t.col + 1)
  }

  function ShowAll(echo: seq<u8>): Terminal {
    if echo == [] then Terminal([], 0) else Show(ShowAll(echo[..|echo| - 1]), echo[|echo| - 1])
  }

  lemma ShowSnoc(echo: seq<u8>, b: u8)
    ensures ShowAll(echo + [b]) == Show(ShowAll(echo), b)
  {
    assert (echo + [b])[..|echo|] == echo;
  }

  /** The terminal shows this line, with nothing but spaces behind the cursor. */
  ghost predicate Displays(t: Terminal, part: seq<u8>) {
    t.col == |part| <= |t.text| && t.text[..t.col] == part && forall i | t.col <= i < |t.text| :: t.text[i] == SPACE
  }

  /** What fill_line echoes for a byte. */
  function Echo(part: seq<u8>, b: u8): seq<u8> {
    if IsEnter(b) then [CR, LF]
    else if IsErase(b) then (if part == [] then [] else [BS, SPACE, BS])
    else if IsText(b) && |part| < LINE_CAP - 1 then [b]
    else []
  }

  lemma EraseShows(t: Terminal, part: seq<u8>)
    requires Displays(t, part) && part != []
    ensures Displays(Show(Show(Show(t, BS), SPACE), BS), part[..|part| - 1])
  {
    var p := part[..|part| - 1];
    assert t.text[..|p|] == p;
  }

  lemma TextShows(t: Terminal, part: seq<u8>, b: u8)
    requires Displays(t, part) && IsText(b)
    ensures Displays(Show(t, b), part + [b])
  {}

  lemma ShowThree(echo: seq<u8>, a: u8, b: u8, c: u8)
    ensures ShowAll(echo + [a, b]) == Show(Show(ShowAll(echo), a), b)
    ensures ShowAll(echo + [a, b, c]) == Show(Show(Show(ShowAll(echo), a), b), c)
  {
    ShowSnoc(echo, a);
    assert echo + [a] + [b] == echo + [a, b];
    ShowSnoc(echo + [a], b);
    assert echo + [a, b] + [c] == echo + [a, b, c];
    ShowSnoc(echo + [a, b], c);
  }

  /** The echo keeps the terminal showing exactly the line so far. */
  lemma EchoDisplays(echo: seq<u8>, c: Cooked, b: u8)
    requires Displays(ShowAll(echo), c.part)
    ensures Displays(ShowAll(echo + Echo(c.part, b)), CookStep(c, b).part)
  {
    if IsEnter(b) {
      ShowThree(echo, CR, LF, LF);
    } else if IsErase(b) && c.part != [] {
      EraseShows(ShowAll(echo), c.part);
      ShowThree(echo, BS, SPACE, BS);
    } else if IsText(b) && |c.part| < LINE_CAP - 1 {
      TextShows(ShowAll(echo), c.part, b);
      ShowSnoc(echo, b);
    } else {
      assert echo + [] == echo;
    }
  }

  /** Enter delivers exactly what the terminal shows up to its cursor. */
  lemma EnterDelivers(echo: seq<u8>, bytes: seq<u8>, enter: u8)
    requires Displays(ShowAll(echo), Cook(bytes).part) && IsEnter(enter)
    ensures var t := ShowAll(echo);
      t.col <= |t.text| && Cook(bytes + [enter]) == Cooked(Cook(bytes).out + t.text[..t.col] + [LF], [])
  {
    CookSnoc(bytes, enter);
  }

  // ---- where raw bytes come from -------------------------------------------------------

  /** raw_push on the queue: the newest byte is dropped when 255 are waiting. */
  function Push(q: seq<u8>, b: u8): seq<u8> { if |q| < RAW_CAP - 1 then q + [b] else q }

  function PushAll(q: seq<u8>, bs: seq<u8>): seq<u8> {
    if bs == [] then q else Push(PushAll(q, bs[..|bs| - 1]), bs[|bs| - 1])
  }

  /** Whatever is pushed, the queue keeps what it had and gains a prefix of the new bytes. */
  lemma {:induction false} PushAllKeepsOrder(q: seq<u8>, bs: seq<u8>)
    requires |q| <= RAW_CAP - 1
    ensures PushAll(q, bs) == q + bs[..Min(|bs|, RAW_CAP - 1 - |q|)]
  {
    if bs != [] {
      var front := bs[..|bs| - 1];
      PushAllKeepsOrder(q, front);
      if |q| + |front| < RAW_CAP - 1 {
        assert bs == front + [bs[|bs| - 1]];
        assert bs[..|bs|] == bs && front[..|front|] == front;
      } else {
        assert front[..RAW_CAP - 1 - |q|] == bs[..RAW_CAP - 1 - |q|];
      }
    }
  }

  /** One pass of fill_line's loop as the outside sees it: bytes injected while it yielded, then
      what the UART answers if the queue is empty (None: nothing yet). */
  datatype Poll = Poll(injected: seq<u8>, uart: Option<u8>)

  function QueueAfter(q: seq<u8>, p: Poll): seq<u8> {
    var r := PushAll(q, p.injected); if r == [] then [] else r[1..]
  }

  function Got(q: seq<u8>, p: Poll): Option<u8> {
    var r := PushAll(q, p.injected); if r == [] then p.uart else Some(r[0])
  }

  /** The queue after some polls. */
  function Drained(q: seq<u8>, ps: seq<Poll>): seq<u8> {
    if ps == [] then q else QueueAfter(Drained(q, ps[..|ps| - 1]), ps[|ps| - 1])
  }

  /** The bytes some polls obtain. */
  function Stream(q: seq<u8>, ps: seq<Poll>): seq<u8> {
    if ps == [] then []
    else
      var got := Got(Drained(q, ps[..|ps| - 1]), ps[|ps| - 1]);
      Stream(q, ps[..|ps| - 1]) + (if got.Some? then [got.value] else [])
  }

  lemma StreamSnoc(q: seq<u8>, ps: seq<Poll>, i: nat)
    requires i < |ps|
    ensures Drained(q, ps[..i + 1]) == QueueAfter(Drained(q, ps[..i]), ps[i])
    ensures var got := Got(Drained(q, ps[..i]), ps[i]);
      Stream(q, ps[..i + 1]) == Stream(q, ps[..i]) + (if got.Some? then [got.value] else [])
  {
    assert ps[..i + 1][..i] == ps[..i];
  }

  lemma PushAllGrows(q: seq<u8>, bs: seq<u8>)
    ensures q <= PushAll(q, bs)
  {
    if bs != [] { PushAllGrows(q, bs[..|bs| - 1]); }
  }

  /** Bytes that wait in the ring are obtained first and in order, whatever is injected meanwhile and
      whatever the UART holds. */
  lemma {:induction false} RingFirst(q: seq<u8>, ps: seq<Poll>, k: nat)
    requires k <= |q| && k <= |ps|
    ensures Stream(q, ps[..k]) == q[..k] && q[k..] <= Drained(q, ps[..k])
  {
    if k > 0 {
      RingFirst(q, ps, k - 1);
      StreamSnoc(q, ps, k - 1);
      var rest := Drained(q, ps[..k - 1]);
      PushAllGrows(rest, ps[k - 1].injected);
      assert q[k - 1..][0] == q[k - 1] && q[..k] == q[..k - 1] + [q[k - 1]] && q[k - 1..][1..] == q[k..];
    }
  }

  /** With the ring empty and nothing injected, the UART's bytes come as it gives them. */
  lemma {:induction false} UartNext(ps: seq<Poll>)
    requires forall i | 0 <= i < |ps| :: ps[i].injected == [] && ps[i].uart.Some?
    ensures Drained([], ps) == [] && |Stream([], ps)| == |ps|
    ensures forall i | 0 <= i < |ps| :: Stream([], ps)[i] == ps[i].uart.value
  {
    if ps != [] { UartNext(ps[..|ps| - 1]); }
  }

  /** Some polls and then others. */
  lemma {:induction false} DrainedConcat(q: seq<u8>, ps: seq<Poll>, qs: seq<Poll>)
    ensures Drained(q, ps + qs) == Drained(Drained(q, ps), qs)
    decreases |qs|
  {
    if qs == [] {
      assert ps + qs == ps;
    } else {
      var front := qs[..|qs| - 1];
      DrainedConcat(q, ps, front);
      assert (ps + qs)[..|ps + qs| - 1] == ps + front;
    }
  }

  lemma {:induction false} StreamConcat(q: seq<u8>, ps: seq<Poll>, qs: seq<Poll>, d: seq<u8>, s: seq<u8>)
    requires d == Drained(q, ps) && s == Stream(q, ps)
    ensures Stream(q, ps + qs) == s + Stream(d, qs)
    decreases |qs|
  {
    if qs == [] {
      assert ps + qs == ps;
    } else {
      var front := qs[..|qs| - 1];
      DrainedConcat(q, ps, front);
      StreamConcat(q, ps, front, d, s);
      assert (ps + qs)[..|ps + qs| - 1] == ps + front;
      var got := Got(Drained(d, front), qs[|qs| - 1]);
      Regroup(s, Stream(d, front), if got.Some? then [got.value] else []);
    }
  }

  /** Poll number i obtains an Enter. */
  ghost predicate EndsLine(q: seq<u8>, ps: seq<Poll>, i: nat)
    requires i < |ps|
  {
    var got := Got(Drained(q, ps[..i]), ps[i]); got.Some? && IsEnter(got.value)
  }

  /** None of the first k polls does. */
  ghost predicate Unended(q: seq<u8>, ps: seq<Poll>, k: nat)
    requires k <= |ps|
  {
    forall i | 0 <= i < k :: !EndsLine(q, ps, i)
  }

  // ---- the code ------------------------------------------------------------------------

  /** The ring position after i. */
  function Next(i: nat): (r: nat)
    requires i < RAW_CAP
    ensures r == if i == RAW_CAP - 1 then 0 else i + 1
  {
    (i + 1) % RAW_CAP
  }

  /** A byte cooked after everything before it. */
  lemma CookAfter(bytes: seq<u8>, out: seq<u8>, part: seq<u8>, b: u8)
    requires Cook(bytes) == Cooked(out, part)
    ensures var step := CookStep(Cooked([], part), b);
      Cook(bytes + [b]) == Cooked(out + step.out, step.part)
  {
    CookSnoc(bytes, b);
    Regroup(out, part, [LF]);
    assert out + [] == out && [] + part == part;
  }

  lemma Regroup(a: seq<u8>, b: seq<u8>, c: seq<u8>)
    ensures (a + b) + c == a + (b + c)
  {}

  /** Moving the front of a pending piece over to what precedes it. */
  lemma TakeFront(out: seq<u8>, d: seq<u8>, a: seq<u8>, i: nat, k: nat, j: nat)
    requires i + k <= j <= |a| && out == d + a[i..j]
    ensures out == d + a[i..i + k] + a[i + k..j]
  {
    assert a[i..j] == a[i..i + k] + a[i + k..j];
  }

  /** The queue and the accepted bytes after the first k polls, none of which ended the line. */
  ghost predicate Followed(q: seq<u8>, ps: seq<Poll>, k: nat, queue: seq<u8>, before: seq<u8>, after: seq<u8>) {
    k <= |ps| && queue == Drained(q, ps[..k]) && after == before + Stream(q, ps[..k])
  }

  /** A prefix of the cooked input, short by at most one line. */
  ghost predicate WithinALine(out: seq<u8>, input: seq<u8>) {
    out <= Cook(input).out && |Cook(input).out| - |out| <= LINE_CAP
  }

  /** One read: how much is asked for, and the polls that happen while it waits. */
  datatype Request = Request(len: nat, polls: seq<Poll>)

  ghost predicate UsedFits(requests: seq<Request>, used: seq<nat>) {
    |used| <= |requests| && forall i | 0 <= i < |used| :: used[i] <= |requests[i].polls|
  }

  /** The polls a series of reads took, read number i taking the first used[i] of its own. */
  ghost function Taken(requests: seq<Request>, used: seq<nat>): seq<Poll>
    requires UsedFits(requests, used)
  {
    if used == [] then []
    else
      var i := |used| - 1;
      Taken(requests, used[..i]) + requests[i].polls[..used[i]]
  }

  /** The queue and the accepted bytes after a series of reads that began with q and acc. */
  ghost predicate Served(requests: seq<Request>, used: seq<nat>, q: seq<u8>, acc: seq<u8>,
                         queue: seq<u8>, after: seq<u8>)
  {
    && UsedFits(requests, used)
    && queue == Drained(q, Taken(requests, used)) && after == acc + Stream(q, Taken(requests, used))
  }

  lemma ServedStart(requests: seq<Request>, q: seq<u8>, acc: seq<u8>)
    ensures Served(requests, [], q, acc, q, acc)
  {}

  lemma ServedNext(requests: seq<Request>, used: seq<nat>, k: nat, q: seq<u8>, acc: seq<u8>,
                   queue: seq<u8>, after: seq<u8>, queue': seq<u8>, after': seq<u8>)
    requires Served(requests, used, q, acc, queue, after) && |used| < |requests|
    requires Followed(queue, requests[|used|].polls, k, queue', after, after')
    ensures Served(requests, used + [k], q, acc, queue', after')
  {
    var ts, ps := Taken(requests, used), requests[|used|].polls[..k];
    TakenNext(requests, used, k, ts);
    DrainedConcat(q, ts, ps);
    StreamConcat(q, ts, ps, queue, Stream(q, ts));
  }

  lemma TakenNext(requests: seq<Request>, used: seq<nat>, k: nat, ts: seq<Poll>)
    requires UsedFits(requests, used) && |used| < |requests| && k <= |requests[|used|].polls|
    requires ts == Taken(requests, used)
    ensures UsedFits(requests, used + [k])
    ensures Taken(requests, used + [k]) == ts + requests[|used|].polls[..k]
  {
    assert (used + [k])[..|used|] == used;
  }

  lemma FollowedStart(q: seq<u8>, ps: seq<Poll>, acc: seq<u8>)
    ensures Followed(q, ps, 0, q, acc, acc)
  {}

  lemma FollowedNext(q: seq<u8>, ps: seq<Poll>, k: nat, queue: seq<u8>, before: seq<u8>, after: seq<u8>)
    requires k < |ps| && Followed(q, ps, k, queue, before, after)
    ensures var got := Got(queue, ps[k]);
      && Followed(q, ps, k + 1, QueueAfter(queue, ps[k]), before, after + (if got.Some? then [got.value] else []))
      && (EndsLine(q, ps, k) <==> got.Some? && IsEnter(got.value))
  {
    StreamSnoc(q, ps, k);
  }

  class Console {
    const raw: array<u8>
    var head: nat
    var tail: nat
    const line: array<u8>
    var lineLen: nat
    var linePos: nat
    // the local variable of a fill_line that is waiting for more input
    var n: nat
    var uartOut: seq<u8>
    ghost var accepted: seq<u8>
    ghost var delivered: seq<u8>

    ghost predicate Shape()
      reads this
    {
      && raw.Length == RAW_CAP && line.Length == LINE_CAP && raw != line
      && head < RAW_CAP && tail < RAW_CAP && linePos <= lineLen <= LINE_CAP && n < LINE_CAP
      && (n > 0 ==> lineLen == 0)
    }

    /** The raw ring as a queue. */
    ghost function Queue(): (q: seq<u8>)
      requires Shape()
      reads this, raw
      ensures |q| < RAW_CAP
    {
      if head <= tail then raw[head..tail] else raw[head..] + raw[..tail]
    }

    /** Everything accepted is either delivered, pending in the line buffer, or still being typed,
        and the terminal shows the line being typed. */
    ghost predicate Valid()
      reads this, raw, line
    {
      && Shape()
      && Cook(accepted).out == delivered + line[linePos..lineLen]
      && Cook(accepted).part == line[..n]
      && Displays(ShowAll(uartOut), line[..n])
    }

    constructor ()
      ensures Valid() && Queue() == [] && accepted == [] && delivered == [] && fresh(raw) && fresh(line)
    {
      raw, line := new u8[RAW_CAP](i => 0), new u8[LINE_CAP](i => 0);
      head, tail, lineLen, linePos, n := 0, 0, 0, 0, 0;
      uartOut, accepted, delivered := [], [], [];
    }

    /** raw_push. */
    method RawPush(c: u8)
      requires Shape()
      modifies this`tail, raw
      ensures Shape() && Queue() == Push(old(Queue()), c)
    {
      var next := Next(tail);
      if next != head {
        raw[tail] := c;
        tail := next;
        assert Queue() == old(Queue()) + [c];
      }
    }

    /** Croi_ConsoleInput_Inject. */
    method Inject(s: seq<u8>)
      requires Shape()
      modifies this`tail, raw
      ensures Shape() && Queue() == PushAll(old(Queue()), s)
    {
      for i := 0 to |s|
        invariant Shape() && Queue() == PushAll(old(Queue()), s[..i])
      {
        assert s[..i + 1][..i] == s[..i];
        RawPush(s[i]);
      }
      assert s[..|s|] == s;
    }

    /** console_getc: the ring first, then the UART. */
    method Getc(uart: Option<u8>) returns (c: Option<u8>)
      requires Shape()
      modifies this`head
      ensures Shape()
      ensures if old(Queue()) == [] then c == uart && Queue() == []
              else c == Some(old(Queue())[0]) && Queue() == old(Queue())[1..]
    {
      if head != tail {
        c := Some(raw[head]);
        head := Next(head);
      } else {
        c := uart;
      }
    }

    /** One byte through fill_line's loop; true when it ended the line. */
    method Accept(c: u8) returns (done: bool)
      requires Valid() && lineLen == linePos == 0
      modifies this`n, this`lineLen, this`uartOut, this`accepted, line
      ensures Valid() && accepted == old(accepted) + [c] && linePos == 0
      ensures done <==> IsEnter(c)
      ensures if done then 0 < lineLen else lineLen == 0
      ensures var t := ShowAll(old(uartOut)); t.col <= |t.text| && (done ==> line[..lineLen] == t.text[..t.col] + [LF])
    {
      assert delivered + line[linePos..lineLen] == delivered;
      CookAfter(accepted, delivered, line[..n], c);
      EchoDisplays(uartOut, Cooked([], line[..n]), c);
      Edit(c);
      accepted := accepted + [c];
      assert line[linePos..lineLen] == line[..lineLen];
      return c == CR || c == LF;
    }

    /** What fill_line does to its buffer and the terminal for one byte. */
    method Edit(c: u8)
      requires Shape() && lineLen == linePos == 0
      modifies this`n, this`lineLen, this`uartOut, line
      ensures Shape() && uartOut == old(uartOut) + Echo(old(line[..n]), c)
      ensures CookStep(Cooked([], old(line[..n])), c) == Cooked(line[..lineLen], line[..n])
      ensures 0 < lineLen <==> IsEnter(c)
    {
      if c == CR || c == LF {
        uartOut := uartOut + [CR, LF];
        line[n] := LF;
        lineLen := n + 1;
        n := 0;
        return;
      }
      if c == BS || c == DEL {
        if n > 0 {
          n := n - 1;
          uartOut := uartOut + [BS, SPACE, BS];
        } else {
          assert uartOut + [] == uartOut;
        }
        return;
      }
      if c >= SPACE && c < DEL && n < LINE_CAP - 1 {
        line[n] := c;
        n := n + 1;
        uartOut := uartOut + [c];
      } else {
        assert uartOut + [] == uartOut;
      }
    }

    /** The byte a poll yields, if any. */
    method Fetch(p: Poll) returns (c: Option<u8>)
      requires Shape()
      modifies this`head, this`tail, raw
      ensures Shape() && Queue() == QueueAfter(old(Queue()), p) && c == Got(old(Queue()), p)
    {
      Inject(p.injected);
      c := Getc(p.uart);
    }

    /** One pass of fill_line's loop; true when it ended the line. */
    method PollOnce(p: Poll) returns (ended: bool)
      requires Valid() && lineLen == linePos == 0
      modifies this`head, this`tail, this`n, this`lineLen, this`uartOut, this`accepted, raw, line
      ensures Valid() && linePos == 0 && (if ended then 0 < lineLen else lineLen == 0)
      ensures Queue() == QueueAfter(old(Queue()), p)
      ensures var got := Got(old(Queue()), p);
        && accepted == old(accepted) + (if got.Some? then [got.value] else [])
        && (ended <==> got.Some? && IsEnter(got.value))
    {
      var c := Fetch(p);
      if c.None? {
        assert accepted + [] == accepted;
        return false;
      }
      ended := Accept(c.value);
    }

    /** Poll number k of the polls that began with queue q and accepted bytes `before`. */
    method PollNext(polls: seq<Poll>, k: nat, ghost q: seq<u8>, ghost before: seq<u8>) returns (ended: bool)
      requires Valid() && lineLen == linePos == 0
      requires k < |polls| && Followed(q, polls, k, Queue(), before, accepted)
      modifies this`head, this`tail, this`n, this`lineLen, this`uartOut, this`accepted, raw, line
      ensures Valid() && linePos == 0 && (if ended then 0 < lineLen else lineLen == 0)
      ensures Followed(q, polls, k + 1, Queue(), before, accepted)
      ensures ended <==> EndsLine(q, polls, k)
    {
      FollowedNext(q, polls, k, Queue(), before, accepted);
      ended := PollOnce(polls[k]);
    }

    /** fill_line's start: no line is pending, so the buffer is empty. */
    method StartLine()
      requires Valid() && linePos == lineLen
      modifies this`lineLen, this`linePos
      ensures Valid() && lineLen == linePos == 0
    {
      assert delivered + line[linePos..lineLen] == delivered + line[0..0];
      linePos, lineLen := 0, 0;
    }

    /** fill_line's loop, over the polls that happen while it runs: they are taken one by one up to
        the first Enter; false when it is still waiting. */
    method FillLoop(polls: seq<Poll>) returns (done: bool, used: nat)
      requires Valid() && lineLen == linePos == 0
      modifies this`head, this`tail, this`n, this`lineLen, this`uartOut, this`accepted, raw, line
      ensures Valid() && linePos == 0 && (done <==> 0 < lineLen)
      ensures Followed(old(Queue()), polls, used, Queue(), old(accepted), accepted)
      ensures !done ==> used == |polls| && Unended(old(Queue()), polls, used)
      ensures done ==> used > 0 && Unended(old(Queue()), polls, used - 1) && EndsLine(old(Queue()), polls, used - 1)
    {
      used := 0;
      ghost var q := Queue();
      FollowedStart(q, polls, accepted);
      while used < |polls|
        invariant Valid() && used <= |polls| && lineLen == linePos == 0
        invariant Followed(q, polls, used, Queue(), old(accepted), accepted)
        invariant Unended(q, polls, used)
      {
        var ended := PollNext(polls, used, q, old(accepted));
        used := used + 1;
        if ended {
          return true, used;
        }
      }
      return false, used;
    }

    /** fill_line: a pending line is left alone, otherwise the next one is read. */
    method FillLine(polls: seq<Poll>) returns (done: bool, used: nat)
      requires Valid()
      modifies this`head, this`tail, this`n, this`lineLen, this`linePos, this`uartOut, this`accepted, raw, line
      ensures Valid() && (done <==> linePos < lineLen)
      ensures old(linePos < lineLen) ==> done && used == 0
      ensures Followed(old(Queue()), polls, used, Queue(), old(accepted), accepted)
      ensures !done ==> used == |polls| && Unended(old(Queue()), polls, used)
    {
      if linePos < lineLen {
        FollowedStart(Queue(), polls, accepted);
        return true, 0;
      }
      StartLine();
      done, used := FillLoop(polls);
    }

    /** The copy loop of Croi_ConsoleInput_Read. */
    method CopyOut(k: nat) returns (buf: seq<u8>)
      requires linePos + k <= line.Length
      ensures buf == line[linePos..linePos + k]
    {
      buf := [];
      for i := 0 to k
        invariant buf == line[linePos..linePos + i]
      {
        buf := buf + [line[linePos + i]];
      }
    }

    /** Croi_ConsoleInput_Read: the next bytes of the pending line; None while it still waits. */
    method Read(len: nat, polls: seq<Poll>) returns (r: Option<seq<u8>>, used: nat)
      requires Valid()
      modifies this, raw, line
      ensures Valid()
      ensures Followed(old(Queue()), polls, used, Queue(), old(accepted), accepted)
      ensures len == 0 || old(linePos < lineLen) ==> r.Some? && used == 0
      ensures r.None? ==> delivered == old(delivered) && used == |polls| && Unended(old(Queue()), polls, used)
      ensures r.Some? ==> delivered == old(delivered) + r.value && |r.value| <= len && (len > 0 ==> |r.value| > 0)
      ensures r.Some? && len > 0 ==> |r.value| == len || linePos == lineLen
    {
      if len == 0 {
        FollowedStart(Queue(), polls, accepted);
        assert delivered + [] == delivered;
        return Some([]), 0;
      }
      var done;
      done, used := FillLine(polls);
      if !done {
        return None, used;
      }
      var avail := lineLen - linePos;
      var k := if len < avail then len else avail;
      var buf := CopyOut(k);
      Deliver(k, buf);
      return Some(buf), used;
    }

    /** A series of reads: what they return, put together, continues what was delivered before, and
        all of it is a prefix of the input of all their polls, cooked. */
    method ReadSeries(requests: seq<Request>) returns (out: seq<u8>, used: seq<nat>)
      requires Valid()
      modifies this, raw, line
      ensures Valid() && |used| == |requests| && UsedFits(requests, used)
      ensures Queue() == Drained(old(Queue()), Taken(requests, used)) && delivered == old(delivered) + out
      ensures WithinALine(old(delivered) + out, old(accepted) + Stream(old(Queue()), Taken(requests, used)))
    {
      out, used := ReadAll(requests);
      DeliveredIsPrefix();
    }

    method ReadAll(requests: seq<Request>) returns (out: seq<u8>, used: seq<nat>)
      requires Valid()
      modifies this, raw, line
      ensures Valid() && |used| == |requests| && delivered == old(delivered) + out
      ensures Served(requests, used, old(Queue()), old(accepted), Queue(), accepted)
    {
      out, used := [], [];
      ghost var d := delivered;
      ServedStart(requests, Queue(), accepted);
      assert d + [] == d;
      for i := 0 to |requests|
        invariant Valid() && |used| == i && delivered == d + out
        invariant Served(requests, used, old(Queue()), old(accepted), Queue(), accepted)
      {
        var bytes, k := ReadNext(requests, used, old(Queue()), old(accepted));
        Regroup(d, out, bytes);
        out, used := out + bytes, used + [k];
      }
    }

    /** The next read of a series that began with queue q and accepted bytes acc. */
    method ReadNext(requests: seq<Request>, used: seq<nat>, ghost q: seq<u8>, ghost acc: seq<u8>)
      returns (bytes: seq<u8>, k: nat)
      requires Valid() && |used| < |requests| && Served(requests, used, q, acc, Queue(), accepted)
      modifies this, raw, line
      ensures Valid() && delivered == old(delivered) + bytes
      ensures Served(requests, used + [k], q, acc, Queue(), accepted)
    {
      ghost var queue, after := Queue(), accepted;
      var r;
      r, k := Read(requests[|used|].len, requests[|used|].polls);
      ServedNext(requests, used, k, q, acc, queue, after, Queue(), accepted);
      bytes := if r.Some? then r.value else [];
      assert delivered + [] == delivered;
    }

    method Deliver(k: nat, ghost buf: seq<u8>)
      requires Valid() && linePos + k <= lineLen && buf == line[linePos..linePos + k]
      modifies this`linePos, this`delivered
      ensures Valid() && delivered == old(delivered) + buf && linePos == old(linePos) + k
    {
      TakeFront(Cook(accepted).out, delivered, line[..], linePos, k, lineLen);
      linePos := linePos + k;
      delivered := delivered + buf;
    }

    /** What readers have seen is always a prefix of the cooked input, short by at most one line. */
    lemma DeliveredIsPrefix()
      requires Valid()
      ensures WithinALine(delivered, accepted)
    {}
  }
}
