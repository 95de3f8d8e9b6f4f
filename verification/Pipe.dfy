/** The ring buffer and the pipe protocol (kernel/ds/ringbuf.c, kernel/fs/pipefs/pipefs.c:158-276). */
module Pipe {
  import opened CMemory

  // ---- The ring buffer ----

  lemma {:induction false} TimesAtLeast(q: int, n: nat)
    requires q >= 1
    ensures q * n >= n
  {
    if q > 1 {
      TimesAtLeast(q - 1, n);
    }
  }

  lemma TimesAtMost(q: int, n: nat)
    requires q <= 0
    ensures q * n <= 0
  {
  }

  /** Indices less than a full turn apart are different slots. */
  lemma SlotsDiffer(x: nat, y: nat, n: nat)
    requires n > 0 && x < y < x + n
    ensures x % n != y % n
  {
    if x % n == y % n {
      var a, b := x / n, y / n;
      assert x == a * n + x % n && y == b * n + y % n;
      assert (b - a) * n == y - x;
      if b > a {
        TimesAtLeast(b - a, n);
      } else {
        TimesAtMost(b - a, n);
      }
    }
  }

  function Slot(b: seq<byte>, i: nat): byte
    requires b != []
  {
    b[i % |b|]
  }

  /** The n bytes from index h on, wrapping around. */
  ghost function Window(b: seq<byte>, h: nat, n: nat): (s: seq<byte>)
    requires b != []
    ensures |s| == n
  {
    if n == 0 then [] else Window(b, h, n - 1) + [Slot(b, h + n - 1)]
  }

  lemma {:induction false} WindowFirst(b: seq<byte>, h: nat, n: nat)
    requires b != [] && n > 0
    ensures Window(b, h, n) == [Slot(b, h)] + Window(b, h + 1, n - 1)
  {
    if n > 1 {
      WindowFirst(b, h, n - 1);
    }
  }

  lemma {:induction false} WindowKept(b: seq<byte>, h: nat, n: nat, t: nat, x: byte)
    requires h + n <= t < h + |b|
    ensures Window(b[t % |b| := x], h, n) == Window(b, h, n)
    decreases n
  {
    if n > 0 {
      WindowKept(b, h, n - 1, t, x);
      SlotsDiffer(h + n - 1, t, |b|);
    }
  }

  class Ring {
    const buf: array<byte>
    const size: nat
    var head: nat
    var tail: nat
    var count: nat

    /** ringbuf_init. */
    constructor (size: nat)
      requires size > 0
      ensures Valid() && this.size == size && Contents() == [] && fresh(buf)
    {
      buf := new byte[size];
      this.size, head, tail, count := size, 0, 0, 0;
    }

    ghost predicate Valid()
      reads this
    {
      size > 0 && buf.Length == size && count <= size && head + count == tail
    }

    ghost function Contents(): (s: seq<byte>)
      requires Valid()
      reads this, buf
      ensures |s| == count
    {
      Window(buf[..], head, count)
    }

    /** ringbuf_available. */
    method Available() returns (n: nat)
      requires Valid()
      ensures n == |Contents()|
    {
      assert tail >= head;  // the counters only grow: the other branch is never taken
      return tail - head;
    }

    /** ringbuf_read. */
    method Read(n: nat) returns (out: seq<byte>)
      requires Valid()
      modifies this`head, this`count
      ensures Valid() && |out| == (if n < old(count) then n else old(count))
      ensures out + Contents() == old(Contents())
    {
      out := [];
      while |out| < n && count != 0
        invariant Valid() && |out| <= n && |out| + count == old(count)
        invariant out + Contents() == old(Contents())
      {
        WindowFirst(buf[..], head, count);
        out := out + [Slot(buf[..], head)];
        head := head + 1;
        count := count - 1;
      }
    }

    /** ringbuf_write. */
    method Write(data: seq<byte>) returns (k: nat)
      requires Valid()
      modifies this`tail, this`count, buf
      ensures Valid() && k == (if |data| < size - old(count) then |data| else size - old(count))
      ensures Contents() == old(Contents()) + data[..k]
    {
      k := 0;
      while k < |data| && count != size
        invariant Valid() && k <= |data| && count == old(count) + k
        invariant Contents() == old(Contents()) + data[..k]
      {
        Put(data[k]);
        k := k + 1;
        assert data[..k] == data[..k - 1] + [data[k - 1]];
      }
    }

    method Put(b: byte)
      requires Valid() && count < size
      modifies this`tail, this`count, buf
      ensures Valid() && count == old(count) + 1 && Contents() == old(Contents()) + [b]
    {
      WindowKept(buf[..], head, count, tail, b);
      ghost var s := buf[..];
      buf[tail % size] := b;
      assert buf[..] == s[tail % size := b];
      tail := tail + 1;
      count := count + 1;
    }
  }

  // ---- Who sent and who received what ----

  /** Transfers in the order they happened: caller id moved these bytes. */
  datatype Log = Start | Then(before: Log, id: nat, bytes: seq<byte>)

  ghost function All(log: Log): seq<byte> {
    match log
    case Start => []
    case Then(before, _, bytes) => All(before) + bytes
  }

  /** The bytes of one caller, in order. */
  ghost function Of(id: nat, log: Log): seq<byte> {
    match log
    case Start => []
    case Then(before, i, bytes) => if i == id then Of(id, before) + bytes else Of(id, before)
  }

  /** Only callers below n occur. */
  ghost predicate Known(log: Log, n: nat) {
    log.Then? ==> log.id < n && Known(log.before, n)
  }

  lemma {:induction false} KnownGrows(log: Log, n: nat)
    requires Known(log, n)
    ensures Known(log, n + 1) && Of(n, log) == []
  {
    if log.Then? {
      KnownGrows(log.before, n);
    }
  }

  /** Log a was carried on to b, by transfers of caller id only. */
  ghost predicate GrownBy(a: Log, b: Log, id: nat) {
    b == a || (b.Then? && b.id == id && GrownBy(a, b.before, id))
  }

  /** Log a was carried on to b: nothing of it was changed. */
  ghost predicate Grown(a: Log, b: Log) {
    b == a || (b.Then? && Grown(a, b.before))
  }

  lemma {:induction false} GrownByOne(a: Log, b: Log, id: nat)
    requires GrownBy(a, b, id)
    ensures Grown(a, b)
  {
    if b != a {
      GrownByOne(a, b.before, id);
    }
  }

  lemma {:induction false} GrownByTwice(a: Log, b: Log, c: Log, id: nat)
    requires GrownBy(a, b, id) && GrownBy(b, c, id)
    ensures GrownBy(a, c, id)
  {
    if c != b {
      GrownByTwice(a, b, c.before, id);
    }
  }

  lemma {:induction false} GrownTwice(a: Log, b: Log, c: Log)
    requires Grown(a, b) && Grown(b, c)
    ensures Grown(a, c)
  {
    if c != b {
      GrownTwice(a, b, c.before);
    }
  }

  /** The bytes of a log that has grown begin with those it had, for each caller and for all together. */
  lemma {:induction false} GrownMeans(a: Log, b: Log, id: nat)
    requires Grown(a, b)
    ensures All(a) <= All(b) && Of(id, a) <= Of(id, b)
  {
    if b != a {
      GrownMeans(a, b.before, id);
    }
  }

  lemma Associates(a: seq<byte>, b: seq<byte>, c: seq<byte>)
    ensures a + b + c == a + (b + c)
  {
  }

  lemma SliceAppend(d: seq<byte>, k: nat, n: nat)
    requires k + n <= |d|
    ensures d[..k + n] == d[..k] + d[k..][..n]
  {
  }

  // ---- The protocol ----

  const EPIPE := -32

  /** A call in progress, perhaps asleep on a condition variable, or finished with its return value. */
  datatype Call =
    | Reading(want: nat, got: seq<byte>, asleep: bool)
    | Writing(data: seq<byte>, sent: nat, asleep: bool)
    | ReadDone(want: nat, got: seq<byte>, result: int)
    | WriteDone(data: seq<byte>, sent: nat, result: int)

  /** What a call has done is what the logs say of it; a count that is returned is the true count. */
  ghost predicate Agrees(c: Call, put: seq<byte>, taken: seq<byte>) {
    match c
    case Reading(want, got, _) => |got| <= want && taken == got && put == []
    case ReadDone(want, got, result) => |got| <= want && taken == got && put == [] && (result >= 0 ==> result == |got|)
    case Writing(data, sent, _) => sent <= |data| && put == data[..sent] && taken == []
    case WriteDone(data, sent, result) =>
      sent <= |data| && put == data[..sent] && taken == [] && (result >= 0 ==> result == sent)
  }

  /** A caller starts, a sleeper is woken (err = 0) or interrupted (err < 0), or an end is closed. */
  datatype Event = StartRead(n: nat) | StartWrite(data: seq<byte>) | Wake(id: nat, err: int) | CloseRead | CloseWrite

  /** The call that an event starts. */
  function Starts(e: Event): seq<Call> {
    match e
    case StartRead(n) => [Reading(n, [], false)]
    case StartWrite(data) => [Writing(data, 0, false)]
    case _ => []
  }

  /** The calls that events start, in order. */
  function AllStarts(events: seq<Event>): seq<Call> {
    if events == [] then [] else AllStarts(events[..|events| - 1]) + Starts(events[|events| - 1])
  }

  /** Call c has become d: what it asked for is the same, what it has done is kept, and a finished call never changes. */
  ghost predicate Advances(c: Call, d: Call) {
    match c
    case Reading(want, got, _) => (d.Reading? || d.ReadDone?) && d.want == want && got <= d.got
    case Writing(data, sent, _) => (d.Writing? || d.WriteDone?) && d.data == data && sent <= d.sent
    case _ => d == c
  }

  ghost predicate AllAdvance(cs: seq<Call>, ds: seq<Call>) {
    |cs| == |ds| && forall i {:trigger Advances(cs[i], ds[i])} :: 0 <= i < |cs| ==> Advances(cs[i], ds[i])
  }

  lemma AdvancesTwice(a: Call, b: Call, c: Call)
    requires Advances(a, b) && Advances(b, c)
    ensures Advances(a, c)
  {
  }

  lemma AllAdvanceTwice(a: seq<Call>, x: seq<Call>, b: seq<Call>, c: seq<Call>)
    requires AllAdvance(a, b) && AllAdvance(b + x, c)
    ensures AllAdvance(a + x, c)
  {
    forall i | 0 <= i < |a + x| ensures Advances((a + x)[i], c[i]) {
      assert Advances((b + x)[i], c[i]);
      if i < |a| {
        assert Advances(a[i], b[i]);
        AdvancesTwice(a[i], b[i], c[i]);
      }
    }
  }

  lemma AllAdvanceOne(cs: seq<Call>, id: nat, d: Call)
    requires id < |cs| && Advances(cs[id], d)
    ensures AllAdvance(cs, cs[id := d])
  {
  }

  /** A call that a signal has interrupted returns the error. */
  function Interrupted(c: Call, err: int): Call {
    match c
    case Reading(want, got, _) => ReadDone(want, got, err)
    case Writing(data, sent, _) => WriteDone(data, sent, err)
    case _ => c
  }

  predicate Asleep(c: Call) {
    (c.Reading? || c.Writing?) && c.asleep
  }

  /** A pipe at one moment: its calls and logs, whether its ends are open, what is in the ring and how much fits. */
  datatype Snap = Snap(calls: seq<Call>, sent: Log, received: Log, readable: bool, writable: bool, contents: seq<byte>,
                       size: nat)

  /** Why a reader stopped: it has all it wanted; or the read end is closed; or it sleeps on an empty ring. */
  ghost predicate StoppedRead(c: Call, d: Call, z: Snap)
    requires c.Reading?
  {
    && (d.ReadDone? || d.Reading?) && d.want == c.want && c.got <= d.got
    && (d.ReadDone? ==> if |d.got| >= c.want then d.result == |d.got|
                        else !z.readable && d.result == if d.got == [] then EPIPE else |d.got|)
    && (d.Reading? ==> d.asleep && |d.got| < d.want && z.readable && z.contents == [])
  }

  /** Why a writer stopped: all its bytes are in; or the write end is closed; or it sleeps on a full ring. */
  ghost predicate StoppedWrite(c: Call, d: Call, z: Snap)
    requires c.Writing?
  {
    && (d.WriteDone? || d.Writing?) && d.data == c.data && c.sent <= d.sent
    && (d.WriteDone? ==> if d.sent >= |d.data| then d.result == d.sent
                         else !z.writable && d.result == if d.sent == 0 then EPIPE else d.sent)
    && (d.Writing? ==> d.asleep && d.sent < |d.data| && z.writable && |z.contents| == z.size)
  }

  /** What a sleeper does that is woken: after an error it fails; otherwise it goes on until it stops again. */
  ghost predicate Woken(id: nat, err: int, y: Snap, z: Snap)
    requires id < |y.calls| && Asleep(y.calls[id])
  {
    && |z.calls| == |y.calls| && z.calls == y.calls[id := z.calls[id]]
    && if err < 0 then z.calls[id] == Interrupted(y.calls[id], err) && z.sent == y.sent && z.received == y.received
       else if y.calls[id].Reading? then
         StoppedRead(y.calls[id], z.calls[id], z) && z.sent == y.sent && GrownBy(y.received, z.received, id)
       else
         StoppedWrite(y.calls[id], z.calls[id], z) && z.received == y.received && GrownBy(y.sent, z.sent, id)
  }

  /** What one event does to the calls, to the logs and to the ends. */
  ghost predicate Step(e: Event, y: Snap, z: Snap) {
    var n := |y.calls|;
    && z.readable == (y.readable && e != CloseRead) && z.writable == (y.writable && e != CloseWrite) && z.size == y.size
    && match e
       case StartRead(want) =>
         && |z.calls| == n + 1 && z.calls == y.calls + [z.calls[n]] && z.sent == y.sent
         && StoppedRead(Reading(want, [], false), z.calls[n], z)
         && if y.readable then GrownBy(y.received, z.received, n) else z.received == y.received
       case StartWrite(data) =>
         && |z.calls| == n + 1 && z.calls == y.calls + [z.calls[n]] && z.received == y.received
         && StoppedWrite(Writing(data, 0, false), z.calls[n], z)
         && if y.writable then GrownBy(y.sent, z.sent, n) else z.sent == y.sent
       case Wake(id, err) =>
         if id < n && Asleep(y.calls[id]) then Woken(id, err, y, z) else Same(y, z)
       case _ => Same(y, z)
  }

  ghost predicate Same(y: Snap, z: Snap) {
    z.calls == y.calls && z.sent == y.sent && z.received == y.received
  }

  /** Whatever the event: logs and calls only grow, and every call only advances. */
  lemma StepAdvances(e: Event, y: Snap, z: Snap)
    requires Step(e, y, z)
    ensures AllAdvance(y.calls + Starts(e), z.calls) && Grown(y.sent, z.sent) && Grown(y.received, z.received)
  {
    var n := |y.calls|;
    match e
    case StartRead(want) =>
      if y.readable {
        GrownByOne(y.received, z.received, n);
      }
      AllAdvanceOne(y.calls + Starts(e), n, z.calls[n]);
      assert z.calls == (y.calls + Starts(e))[n := z.calls[n]];
    case StartWrite(data) =>
      if y.writable {
        GrownByOne(y.sent, z.sent, n);
      }
      AllAdvanceOne(y.calls + Starts(e), n, z.calls[n]);
      assert z.calls == (y.calls + Starts(e))[n := z.calls[n]];
    case Wake(id, err) =>
      assert y.calls + Starts(e) == y.calls;
      if id < n && Asleep(y.calls[id]) {
        WokenAdvances(id, err, y, z);
      }
    case _ => assert y.calls + Starts(e) == y.calls;
  }

  lemma WokenAdvances(id: nat, err: int, y: Snap, z: Snap)
    requires id < |y.calls| && Asleep(y.calls[id]) && Woken(id, err, y, z)
    ensures AllAdvance(y.calls, z.calls) && Grown(y.sent, z.sent) && Grown(y.received, z.received)
  {
    AllAdvanceOne(y.calls, id, z.calls[id]);
    if err >= 0 && y.calls[id].Reading? {
      GrownByOne(y.received, z.received, id);
    } else if err >= 0 {
      GrownByOne(y.sent, z.sent, id);
    }
  }

  /** Nothing is lost, doubled or reordered: what was accepted is what was delivered and what is in the ring. */
  ghost predicate Balanced(z: Snap) {
    All(z.sent) == All(z.received) + z.contents && |z.contents| <= z.size
  }

  /** The pipe went through these moments, one event after the other. */
  datatype Trace = Begin(z: Snap) | Next(before: Trace, e: Event, z: Snap)

  ghost predicate Happened(t: Trace) {
    Balanced(t.z) && (t.Next? ==> Happened(t.before) && Step(t.e, t.before.z, t.z))
  }

  ghost function EventsOf(t: Trace): seq<Event> {
    if t.Begin? then [] else EventsOf(t.before) + [t.e]
  }

  ghost function FirstOf(t: Trace): Snap {
    if t.Begin? then t.z else FirstOf(t.before)
  }

  /** What all events come to: the logs only grow; every event that starts a call adds one, in order, and each call only
      advances from there; a closed end stays closed. */
  lemma {:induction false} RunMeans(t: Trace)
    requires Happened(t)
    ensures Grown(FirstOf(t).sent, t.z.sent) && Grown(FirstOf(t).received, t.z.received)
    ensures AllAdvance(FirstOf(t).calls + AllStarts(EventsOf(t)), t.z.calls)
    ensures t.z.readable == (FirstOf(t).readable && CloseRead !in EventsOf(t))
    ensures t.z.writable == (FirstOf(t).writable && CloseWrite !in EventsOf(t))
  {
    var a, b := FirstOf(t), EventsOf(t);
    if t.Begin? {
      assert a.calls + AllStarts([]) == a.calls;
    } else {
      RunMeans(t.before);
      StepAdvances(t.e, t.before.z, t.z);
      GrownTwice(a.sent, t.before.z.sent, t.z.sent);
      GrownTwice(a.received, t.before.z.received, t.z.received);
      AllAdvanceTwice(a.calls + AllStarts(EventsOf(t.before)), Starts(t.e), t.before.z.calls, t.z.calls);
      assert b[..|b| - 1] == EventsOf(t.before);
      assert a.calls + AllStarts(EventsOf(t.before)) + Starts(t.e) == a.calls + AllStarts(b);
    }
  }

  class System {
    const ring: Ring
    var readable: bool
    var writable: bool
    var calls: seq<Call>
    ghost var sent: Log
    ghost var received: Log

    constructor (size: nat)
      requires size > 0
      ensures Valid() && fresh(ring) && fresh(ring.buf) && sent == Start && received == Start
    {
      ring := new Ring(size);
      readable, writable, calls, sent, received := true, true, [], Start, Start;
    }

    /** Nothing is lost, doubled or reordered: what was accepted is what was delivered and what is in the ring. */
    ghost predicate Valid()
      reads this, ring, ring.buf
    {
      && ring.Valid()
      && All(sent) == All(received) + ring.Contents()
      && Known(sent, |calls|) && Known(received, |calls|)
      && AllRight()
    }

    ghost function Now(): Snap
      requires ring.Valid()
      reads this, ring, ring.buf
    {
      Snap(calls, sent, received, readable, writable, ring.Contents(), ring.size)
    }

    ghost predicate AllRight()
      reads this`calls, this`sent, this`received
    {
      forall id: nat {:trigger Right(id)} :: id < |calls| ==> Right(id)
    }

    ghost predicate Right(id: nat)
      requires id < |calls|
      reads this`calls, this`sent, this`received
    {
      Agrees(calls[id], Of(id, sent), Of(id, received))
    }

    /** One ringbuf_read on behalf of a reader. */
    method Take(id: nat)
      requires Valid() && id < |calls| && calls[id].Reading?
      modifies this`calls, this`received, ring`head, ring`count
      ensures Valid() && |calls| == |old(calls)| && calls == old(calls)[id := calls[id]] && GrownBy(old(received), received, id)
      ensures calls[id].Reading? && calls[id].want == old(calls)[id].want && old(calls)[id].got <= calls[id].got
      ensures |calls[id].got| > |old(calls)[id].got| || old(ring.count) == 0 || |old(calls)[id].got| == old(calls)[id].want
    {
      assert Right(id);
      var out := ring.Read(calls[id].want - |calls[id].got|);
      Receive(id, out);
    }

    /** The caller's buffer now holds out as well. */
    method Receive(id: nat, out: seq<byte>)
      requires ring.Valid() && Known(sent, |calls|) && Known(received, |calls|) && AllRight()
      requires All(sent) == All(received) + (out + ring.Contents())
      requires id < |calls| && calls[id].Reading? && |calls[id].got| + |out| <= calls[id].want
      modifies this`calls, this`received
      ensures Valid() && calls == old(calls)[id := Reading(old(calls)[id].want, old(calls)[id].got + out, false)]
      ensures received == Then(old(received), id, out)
    {
      var c := calls[id];
      Associates(All(received), out, ring.Contents());
      received := Then(received, id, out);
      calls := calls[id := Reading(c.want, c.got + out, false)];
      forall k: nat | k < |calls| ensures Right(k) {
        assert old(Right(k));
      }
    }

    /** One ringbuf_write on behalf of a writer. */
    method Give(id: nat)
      requires Valid() && id < |calls| && calls[id].Writing?
      modifies this`calls, this`sent, ring`tail, ring`count, ring.buf
      ensures Valid() && |calls| == |old(calls)| && calls == old(calls)[id := calls[id]] && GrownBy(old(sent), sent, id)
      ensures calls[id].Writing? && calls[id].data == old(calls)[id].data && old(calls)[id].sent <= calls[id].sent
      ensures calls[id].sent > old(calls)[id].sent || old(ring.count) == ring.size || old(calls)[id].sent == |calls[id].data|
    {
      assert Right(id);
      var rest := calls[id].data[calls[id].sent..];
      ghost var before := ring.Contents();
      var n := ring.Write(rest);
      Associates(All(received), before, rest[..n]);
      Accept(id, n);
    }

    /** n more bytes of the caller's buffer are in the ring. */
    method Accept(id: nat, n: nat)
      requires ring.Valid() && Known(sent, |calls|) && Known(received, |calls|) && AllRight()
      requires id < |calls| && calls[id].Writing? && calls[id].sent + n <= |calls[id].data|
      requires All(sent) + calls[id].data[calls[id].sent..][..n] == All(received) + ring.Contents()
      modifies this`calls, this`sent
      ensures Valid() && calls == old(calls)[id := Writing(old(calls)[id].data, old(calls)[id].sent + n, false)]
      ensures sent == Then(old(sent), id, old(calls)[id].data[old(calls)[id].sent..][..n])
    {
      var c := calls[id];
      SliceAppend(c.data, c.sent, n);
      sent := Then(sent, id, c.data[c.sent..][..n]);
      calls := calls[id := Writing(c.data, c.sent + n, false)];
      forall k: nat | k < |calls| ensures Right(k) {
        assert old(Right(k));
      }
    }

    /** Call id goes to sleep or returns. */
    method Become(id: nat, c: Call)
      requires Valid() && id < |calls| && Agrees(c, Of(id, sent), Of(id, received))
      modifies this`calls
      ensures Valid() && calls == old(calls)[id := c]
    {
      calls := calls[id := c];
      forall k: nat | k < |calls| ensures Right(k) {
        assert old(Right(k));
      }
    }

    /** pipefs_iread from the top of its loop until it returns or goes to sleep. */
    method RunRead(id: nat)
      requires Valid() && id < |calls| && calls[id].Reading?
      modifies this`calls, this`received, ring`head, ring`count
      ensures Valid() && |calls| == |old(calls)| && calls == old(calls)[id := calls[id]]
      ensures StoppedRead(old(calls)[id], calls[id], Now())
      ensures if readable then GrownBy(old(received), received, id) else received == old(received)
    {
      while |calls[id].got| < calls[id].want
        invariant Valid() && |calls| == |old(calls)| && calls == old(calls)[id := calls[id]] && calls[id].Reading?
        invariant if readable then GrownBy(old(received), received, id) else received == old(received)
        invariant calls[id].want == old(calls)[id].want && old(calls)[id].got <= calls[id].got
        decreases calls[id].want - |calls[id].got|
      {
        var c := calls[id];
        assert Right(id);
        if !readable {
          Become(id, ReadDone(c.want, c.got, if c.got == [] then EPIPE else |c.got|));
          return;
        }
        if ring.count == 0 {
          Become(id, Reading(c.want, c.got, true));
          return;
        }
        ghost var log := received;
        Take(id);
        GrownByTwice(old(received), log, received, id);
      }
      assert Right(id);
      Become(id, ReadDone(calls[id].want, calls[id].got, |calls[id].got|));
    }

    /** pipefs_iwrite from the top of its loop until it returns or goes to sleep. */
    method RunWrite(id: nat)
      requires Valid() && id < |calls| && calls[id].Writing?
      modifies this`calls, this`sent, ring`tail, ring`count, ring.buf
      ensures Valid() && |calls| == |old(calls)| && calls == old(calls)[id := calls[id]]
      ensures StoppedWrite(old(calls)[id], calls[id], Now())
      ensures if writable then GrownBy(old(sent), sent, id) else sent == old(sent)
    {
      while calls[id].sent < |calls[id].data|
        invariant Valid() && |calls| == |old(calls)| && calls == old(calls)[id := calls[id]] && calls[id].Writing?
        invariant if writable then GrownBy(old(sent), sent, id) else sent == old(sent)
        invariant calls[id].data == old(calls)[id].data && old(calls)[id].sent <= calls[id].sent
        decreases |calls[id].data| - calls[id].sent
      {
        var c := calls[id];
        assert Right(id);
        if !writable {
          Become(id, WriteDone(c.data, c.sent, if c.sent == 0 then EPIPE else c.sent));
          return;
        }
        if ring.count == ring.size {
          Become(id, Writing(c.data, c.sent, true));
          return;
        }
        ghost var log := sent;
        Give(id);
        GrownByTwice(old(sent), log, sent, id);
      }
      assert Right(id);
      Become(id, WriteDone(calls[id].data, calls[id].sent, calls[id].sent));
    }

    /** A call enters with nothing done. */
    method Enter(c: Call) returns (id: nat)
      requires Valid() && Agrees(c, [], [])
      modifies this`calls
      ensures Valid() && id == |old(calls)| && calls == old(calls) + [c]
    {
      id := |calls|;
      KnownGrows(sent, id);
      KnownGrows(received, id);
      calls := calls + [c];
      forall k: nat | k < |calls| ensures Right(k) {
        assert k < id ==> old(Right(k));
      }
    }

    /** pipefs_iread. */
    method StartReading(n: nat)
      requires Valid()
      modifies this`calls, this`received, ring`head, ring`count
      ensures Valid() && Step(StartRead(n), old(Now()), Now())
    {
      var id := Enter(Reading(n, [], false));
      RunRead(id);
      assert calls == old(calls) + [calls[id]];
    }

    /** pipefs_iwrite. */
    method StartWriting(data: seq<byte>)
      requires Valid()
      modifies this`calls, this`sent, ring`tail, ring`count, ring.buf
      ensures Valid() && Step(StartWrite(data), old(Now()), Now())
    {
      var id := Enter(Writing(data, 0, false));
      RunWrite(id);
      assert calls == old(calls) + [calls[id]];
    }

    /** The wait of a reader returns: after an error the call fails; otherwise it goes on with the buffer operation,
        whatever the state of the buffer and of the other end is by then. */
    method WakeReader(id: nat, err: int)
      requires Valid() && id < |calls| && calls[id].Reading? && calls[id].asleep
      modifies this`calls, this`received, ring`head, ring`count
      ensures Valid() && Woken(id, err, old(Now()), Now())
    {
      assert Right(id);
      if err < 0 {
        Become(id, Interrupted(calls[id], err));
      } else {
        Take(id);
        ghost var log := received;
        RunRead(id);
        GrownByTwice(old(received), log, received, id);
      }
    }

    /** The wait of a writer returns. */
    method WakeWriter(id: nat, err: int)
      requires Valid() && id < |calls| && calls[id].Writing? && calls[id].asleep
      modifies this`calls, this`sent, ring`tail, ring`count, ring.buf
      ensures Valid() && Woken(id, err, old(Now()), Now())
    {
      assert Right(id);
      if err < 0 {
        Become(id, Interrupted(calls[id], err));
      } else {
        Give(id);
        ghost var log := sent;
        RunWrite(id);
        GrownByTwice(old(sent), log, sent, id);
      }
    }

    /** Only a sleeper can be woken. */
    method WakeUp(id: nat, err: int)
      requires Valid()
      modifies this`calls, this`sent, this`received, ring, ring.buf
      ensures Valid() && Step(Wake(id, err), old(Now()), Now())
    {
      if id < |calls| && Asleep(calls[id]) {
        if calls[id].Reading? {
          WakeReader(id, err);
        } else {
          WakeWriter(id, err);
        }
      }
    }

    /** One stretch of execution under the pipe lock. */
    method Handle(e: Event)
      requires Valid()
      modifies this, ring, ring.buf
      ensures Valid() && Step(e, old(Now()), Now())
    {
      match e
      case StartRead(n) => StartReading(n);
      case StartWrite(data) => StartWriting(data);
      case Wake(id, err) => WakeUp(id, err);
      case CloseRead => readable := false;
      case CloseWrite => writable := false;
    }

    /** Every interleaving of callers: each event takes the pipe one step on, no byte is lost, doubled or reordered at any
        moment, and every count that was returned is the true count. */
    method Run(events: seq<Event>) returns (ghost t: Trace)
      requires Valid()
      modifies this, ring, ring.buf
      ensures Valid() && AllRight()
      ensures Happened(t) && EventsOf(t) == events && FirstOf(t) == old(Now()) && t.z == Now()
      ensures Grown(old(sent), sent) && Grown(old(received), received)
      ensures AllAdvance(old(calls) + AllStarts(events), calls)
      ensures readable == (old(readable) && CloseRead !in events) && writable == (old(writable) && CloseWrite !in events)
    {
      t := Begin(Now());
      for i := 0 to |events|
        invariant Valid() && Happened(t) && EventsOf(t) == events[..i] && FirstOf(t) == old(Now()) && t.z == Now()
      {
        Handle(events[i]);
        t := Next(t, events[i], Now());
      }
      RunMeans(t);
    }
  }
}
