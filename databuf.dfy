/**
 * `DataBuf<DataType>`: a fixed-capacity ring of slots holding stamped
 * values, a head index (the slot written last), a tail index (the oldest
 * slot once the ring has wrapped) and `latest_time_stamp`, the stamp of the
 * value handed out last, used to refuse handing the same value out twice.
 *
 * The slot type is `Wrapped<T>`, since `get` reads a `time_stamp` member of
 * it. The outcome of each timed lock attempt is an input (`lockAcquired`),
 * and the optional validator is an `Option` of a total predicate.
 *
 * The operations are first given on an abstract value `State` (UpdateState,
 * GetState), where the properties are proved; the class `DataBuf` then
 * implements them in place on an array and is proved to agree with them.
 */
module DataBuffer {
  import opened TimeStamp

  datatype Option<T> = None | Some(value: T)

  /** `bool (*)(const DataType&)`, possibly `nullptr`. */
  type Validator<!T> = Option<Wrapped<T> -> bool>

  /** `v == nullptr ? true : v(x)`: a missing validator accepts everything,
      a given one decides. */
  predicate Accepts<T>(v: Validator<T>, x: Wrapped<T>): (b: bool)
    ensures v.None? ==> b
    ensures v.Some? ==> (b <==> v.value(x))
  {
    v.None? || v.value(x)
  }

  /** The buffer's fields as one value: the slot contents, `head_idx`,
      `tail_idx` and `latest_time_stamp`. */
  datatype State<T> = State(slots: seq<Wrapped<T>>, head: int, tail: int, latest: Short)

  /** At least one slot, and both indices inside the ring. */
  predicate ValidState<T>(s: State<T>)
  {
    0 < |s.slots| && 0 <= s.head < |s.slots| && 0 <= s.tail < |s.slots|
  }

  /** `(i + 1) % size` for an index of the ring: the next slot, wrapping
      from the last slot to the first. */
  function NextIndex(i: int, n: int): (r: int)
    requires 0 <= i < n
    ensures 0 <= r < n
    ensures i < n - 1 ==> r == i + 1
    ensures i == n - 1 ==> r == 0
  {
    (i + 1) % n
  }

  /** The state the constructor builds from a clock that reads `c0`: `size`
      default-constructed slots, each stamped by its own `clock()` call in
      index order, both indices 0 and `latest_time_stamp` 0. */
  function InitState<T>(size: int, c0: Short, raw: T): (r: State<T>)
    requires size > 0
    ensures ValidState(r) && |r.slots| == size
    ensures r.head == 0 && r.tail == 0 && r.latest == 0
    ensures forall i :: 0 <= i < size ==> r.slots[i].rawData == raw && r.slots[i].timeStamp == ClockAfter(c0, i + 1)
  {
    State(seq(size, i requires 0 <= i < size => Wrapped(raw, ClockAfter(c0, i + 1))), 0, 0, 0)
  }

  /** `update(data, v)`: the success flag and the state afterwards.
      A rejected value or a failed lock changes nothing; otherwise the
      slot after the head takes `data`, the tail moves on if the new head
      landed on it, and the head moves to the written slot. */
  function UpdateState<T>(s: State<T>, data: Wrapped<T>, v: Validator<T>, lockAcquired: bool): (r: (bool, State<T>))
    requires ValidState(s)
    ensures ValidState(r.1) && |r.1.slots| == |s.slots| && r.1.latest == s.latest
    ensures r.0 == (Accepts(v, data) && lockAcquired)
    ensures !r.0 ==> r.1 == s
    ensures r.0 ==> r.1.head == NextIndex(s.head, |s.slots|) && r.1.slots[r.1.head] == data
    ensures forall i :: 0 <= i < |s.slots| && i != r.1.head ==> r.1.slots[i] == s.slots[i]
  {
    if !Accepts(v, data) then (false, s)
    else
      var n := |s.slots|;
      var newHead := NextIndex(s.head, n);
      if lockAcquired then
        var newTail := if newHead == s.tail then NextIndex(s.tail, n) else s.tail;
        (true, State(s.slots[newHead := s.slots[newHead].Assign(data)], newHead, newTail, s.latest))
      else
        (false, s)
  }

  /** `get(data, v)`: the success flag, the value of the out-parameter
      afterwards (initially `data`) and the state afterwards. */
  function GetState<T>(s: State<T>, data: Wrapped<T>, v: Validator<T>, lockAcquired: bool): (r: (bool, Wrapped<T>, State<T>))
    requires ValidState(s)
    ensures r.2.slots == s.slots && r.2.head == s.head && r.2.tail == s.tail
    ensures r.0 == (lockAcquired && Accepts(v, s.slots[s.head]) && s.slots[s.head].timeStamp != s.latest)
    ensures r.0 ==> r.1 == s.slots[s.head] && r.2.latest == r.1.timeStamp
    ensures !r.0 ==> r.1 == data && r.2.latest == s.latest
  {
    var cur := s.head;
    if lockAcquired && Accepts(v, s.slots[cur]) && s.slots[cur].timeStamp != s.latest then
      var slot := s.slots[cur];
      (true, data.Assign(slot), s.(latest := slot.timeStamp))
    else
      (false, data, s)
  }

  // ---------------------------------------------------------------------
  // update

  /** A value the validator rejects is refused before anything else
      happens: the result is false and the state is untouched. */
  lemma UpdateRejected<T>(s: State<T>, data: Wrapped<T>, v: Validator<T>, lockAcquired: bool)
    requires ValidState(s) && !Accepts(v, data)
    ensures UpdateState(s, data, v, lockAcquired) == (false, s)
  {
  }

  /** A failed lock attempt gives false and leaves the state untouched. */
  lemma UpdateLockFailed<T>(s: State<T>, data: Wrapped<T>, v: Validator<T>)
    requires ValidState(s)
    ensures UpdateState(s, data, v, false) == (false, s)
  {
  }

  /** A successful update: exactly the slot after the old head now holds
      `data` verbatim (not re-stamped), the head points at it, the tail
      moves on by one exactly when it was that slot, and the stamp cursor
      is not touched. */
  lemma UpdateCommits<T>(s: State<T>, data: Wrapped<T>, v: Validator<T>)
    requires ValidState(s) && Accepts(v, data)
    ensures var (ok, t) := UpdateState(s, data, v, true);
      var h := NextIndex(s.head, |s.slots|);
      ok && t.slots == s.slots[h := data] && t.head == h
      && t.tail == (if h == s.tail then NextIndex(s.tail, |s.slots|) else s.tail)
      && t.latest == s.latest
  {
  }

  /** `k` successful updates in a row, with no validator and every lock
      attempt succeeding. */
  function UpdateAll<T>(s: State<T>, xs: seq<Wrapped<T>>): (r: State<T>)
    requires ValidState(s)
    ensures ValidState(r) && |r.slots| == |s.slots| && r.latest == s.latest
    decreases |xs|
  {
    if xs == [] then s
    else UpdateState(UpdateAll(s, xs[..|xs| - 1]), xs[|xs| - 1], None, true).1
  }

  lemma {:induction false} MulAtLeast(m: int, n: int)
    requires m >= 1 && n > 0
    ensures m * n >= n
    decreases m
  {
    if m > 1 {
      MulAtLeast(m - 1, n);
      assert m * n == (m - 1) * n + n;
    }
  }

  /** Euclidean division has only one quotient and remainder. */
  lemma ModUnique(x: int, n: int, q: int, r: int)
    requires n > 0 && 0 <= r < n && x == q * n + r
    ensures x % n == r
  {
    var q', r' := x / n, x % n;
    assert (q - q') * n == r' - r;
    if q - q' >= 1 {
      MulAtLeast(q - q', n);
    } else if q' - q >= 1 {
      MulAtLeast(q' - q, n);
    }
  }

  lemma ModNext(a: int, n: int)
    requires n > 0
    ensures ((a % n) + 1) % n == (a + 1) % n
  {
    var q, r := a / n, a % n;
    if r + 1 < n {
      ModUnique(r + 1, n, 0, r + 1);
      ModUnique(a + 1, n, q, r + 1);
    } else {
      ModUnique(r + 1, n, 1, 0);
      assert a + 1 == (q + 1) * n + 0;
      ModUnique(a + 1, n, q + 1, 0);
    }
  }

  lemma ModDistinct(a: int, d: int, n: int)
    requires 0 < d < n
    ensures a % n != (a + d) % n
  {
    var q1, q2 := a / n, (a + d) / n;
    if a % n == (a + d) % n {
      assert d == (q2 - q1) * n;
      if q2 - q1 >= 1 {
        MulAtLeast(q2 - q1, n);
      } else if q1 - q2 >= 1 {
        MulAtLeast(q1 - q2, n);
      }
    }
  }

  /** Each update moves the head on by one slot, modulo the capacity. */
  lemma {:induction false} UpdatesMoveHead<T>(s: State<T>, xs: seq<Wrapped<T>>)
    requires ValidState(s)
    ensures UpdateAll(s, xs).head == (s.head + |xs|) % |s.slots|
  {
    if xs != [] {
      var k := |xs|;
      UpdatesMoveHead(s, xs[..k - 1]);
      ModNext(s.head + k - 1, |s.slots|);
    }
  }

  /** From a freshly built buffer (head and tail 0), after `k` updates the
      head is `k % N` and the tail is 0 while `k < N`, and `(k + 1) % N`
      once the ring has wrapped. */
  lemma {:induction false} UpdatesFromStart<T>(s: State<T>, xs: seq<Wrapped<T>>)
    requires ValidState(s) && s.head == 0 && s.tail == 0
    ensures var n, k, t := |s.slots|, |xs|, UpdateAll(s, xs);
      t.head == k % n && t.tail == (if k < n then 0 else (k + 1) % n)
  {
    UpdatesMoveHead(s, xs);
    if xs != [] {
      var n, k := |s.slots|, |xs|;
      var ys := xs[..k - 1];
      var p := UpdateAll(s, ys);
      UpdatesFromStart(s, ys);
      UpdateCommits(p, xs[k - 1], None);
      if k < n {
        ModUnique(k, n, 0, k);
      } else if k == n {
        ModUnique(k - 1, n, 0, k - 1);
        ModUnique(k, n, 1, 0);
        ModNext(k, n);
      } else {
        ModNext(k, n);
      }
    }
  }

  /** The ring keeps the last `N` values written: the `i`-th of them sits in
      the slot `i + 1` places after the starting head. */
  lemma {:induction false} UpdatesKeepLast<T>(s: State<T>, xs: seq<Wrapped<T>>, i: int)
    requires ValidState(s)
    requires 0 <= i < |xs| && |xs| - i <= |s.slots|
    ensures UpdateAll(s, xs).slots[(s.head + i + 1) % |s.slots|] == xs[i]
  {
    var n, k := |s.slots|, |xs|;
    UpdatesMoveHead(s, xs[..k - 1]);
    ModNext(s.head + k - 1, n);
    if i < k - 1 {
      UpdatesKeepLast(s, xs[..k - 1], i);
      ModDistinct(s.head + i + 1, k - 1 - i, n);
    }
  }

  // ---------------------------------------------------------------------
  // get

  /** A second `get` with no update in between fails, whatever its lock
      outcome and validator, and changes nothing. */
  lemma DuplicateSuppressed<T>(s: State<T>, d1: Wrapped<T>, v1: Validator<T>, d2: Wrapped<T>, v2: Validator<T>, lock2: bool)
    requires ValidState(s)
    requires GetState(s, d1, v1, true).0
    ensures var t := GetState(s, d1, v1, true).2;
      GetState(t, d2, v2, lock2) == (false, d2, t)
  {
  }

  /** Round trip: once `update(x)` has succeeded, a `get` whose lock and
      validator succeed returns exactly `x`, payload and stamp, provided
      `x`'s stamp is not the one handed out last. */
  lemma UpdateThenGet<T>(s: State<T>, x: Wrapped<T>, v: Validator<T>, d: Wrapped<T>, w: Validator<T>)
    requires ValidState(s)
    requires UpdateState(s, x, v, true).0
    requires x.timeStamp != s.latest && Accepts(w, x)
    ensures var t := UpdateState(s, x, v, true).1;
      GetState(t, d, w, true) == (true, x, t.(latest := x.timeStamp))
  {
  }

  /** After any run of updates, a `get` returns the last value written
      (if its stamp is new to the reader), never an older one. */
  lemma {:induction false} GetAfterUpdates<T>(s: State<T>, xs: seq<Wrapped<T>>, d: Wrapped<T>, w: Validator<T>)
    requires ValidState(s) && xs != []
    requires xs[|xs| - 1].timeStamp != s.latest && Accepts(w, xs[|xs| - 1])
    ensures var t := UpdateAll(s, xs);
      GetState(t, d, w, true) == (true, xs[|xs| - 1], t.(latest := xs[|xs| - 1].timeStamp))
  {
    UpdatesMoveHead(s, xs);
    UpdatesKeepLast(s, xs, |xs| - 1);
  }

  /** A `get` on a freshly built buffer, before any update, succeeds and
      hands out the default-constructed slot 0, since that slot's stamp is
      the clock's next value and `latest_time_stamp` starts at 0. Only a
      clock reading -1 (whose next value is 0) makes it fail. */
  lemma FreshGet<T>(size: int, c0: Short, raw: T, d: Wrapped<T>)
    requires size > 0
    ensures var r := GetState(InitState(size, c0, raw), d, None, true);
      r.0 == (c0 != -1) && (r.0 ==> r.1 == Wrapped(raw, Next(c0)))
  {
    assert ClockAfter(c0, 1) == Next(c0);
  }

  /** `wrap` keeps the stamp, so a value handed out by `get`, re-wrapped
      with any new payload and written back, is refused by the next `get`
      as already seen. */
  lemma RewrappedIsStale<T>(s: State<T>, d: Wrapped<T>, v: Validator<T>, p: T, e: Wrapped<T>, w: Validator<T>, lock: bool)
    requires ValidState(s)
    requires GetState(s, d, v, true).0
    ensures var g := GetState(s, d, v, true);
      var u := UpdateState(g.2, g.1.Wrap(p), None, true);
      u.0 && !GetState(u.1, e, w, lock).0
  {
  }

  /** A successful `get` only promises a stamp different from the previous
      one, not a newer one: a value rewritten with an older explicit stamp
      is handed out again. */
  lemma OlderStampRedelivered<T>(raw: T, d: Wrapped<T>)
    ensures var s := State([Wrapped(raw, 5)], 0, 0, 0);
      var g1 := GetState(s, d, None, true);
      var u := UpdateState(g1.2, Wrapped(raw, 3), None, true);
      var g2 := GetState(u.1, d, None, true);
      g1.0 && u.0 && g2.0 && g2.1.timeStamp < g1.1.timeStamp
  {
  }

  // ---------------------------------------------------------------------
  // the buffer object

  class DataBuf<T> {
    const dataBuf: array<Wrapped<T>>
    var headIdx: int
    var tailIdx: int
    var latestTimeStamp: Short

    ghost predicate Valid()
      reads this
    {
      0 < dataBuf.Length && 0 <= headIdx < dataBuf.Length && 0 <= tailIdx < dataBuf.Length
    }

    /** The fields as one `State` value. */
    ghost function Abs(): State<T>
      reads this, dataBuf
    {
      State(dataBuf[..], headIdx, tailIdx, latestTimeStamp)
    }

    /** `DataBuf(size)`: `size` default-constructed slots (each takes a stamp
        from `clock`), head, tail and `latest_time_stamp` all 0. `raw` stands
        for the default-constructed payload, the same in every slot. */
    constructor (size: int, clock: Clock, raw: T)
      requires size > 0
      modifies clock
      ensures Valid() && fresh(dataBuf)
      ensures Abs() == InitState(size, old(clock.clockTime), raw)
      ensures clock.clockTime == ClockAfter(old(clock.clockTime), size)
    {
      ghost var c0 := clock.clockTime;
      var slots := new Wrapped<T>[size](_ => Wrapped(raw, 0));
      var i := 0;
      while i < size
        invariant 0 <= i <= size
        invariant clock.clockTime == ClockAfter(c0, i)
        invariant forall j :: 0 <= j < i ==> slots[j] == Wrapped(raw, ClockAfter(c0, j + 1))
        modifies slots, clock
      {
        var w := NewWrapped(clock, raw);
        slots[i] := w;
        i := i + 1;
      }
      dataBuf := slots;
      headIdx, tailIdx, latestTimeStamp := 0, 0, 0;
    }

    /** `update(data, v)`: the validator is a pre-check; the lock is then
        tried on the slot after the head, and on success that slot is
        overwritten, the tail moved on if needed and the head published. */
    method Update(data: Wrapped<T>, v: Validator<T>, lockAcquired: bool) returns (ok: bool)
      requires Valid()
      modifies this`headIdx, this`tailIdx, dataBuf
      ensures Valid()
      ensures (ok, Abs()) == UpdateState(old(Abs()), data, v, lockAcquired)
    {
      if !Accepts(v, data) {
        return false;
      }
      var newHead := (headIdx + 1) % dataBuf.Length;
      if lockAcquired {
        dataBuf[newHead] := dataBuf[newHead].Assign(data);
        if newHead == tailIdx {
          tailIdx := (tailIdx + 1) % dataBuf.Length;
        }
        headIdx := newHead;
        return true;
      }
      return false;
    }

    /** `get(data, v)`: snapshot the head, try its lock, run the validator
        on the slot, refuse a stamp already handed out, else copy the slot
        into the out-parameter and record its stamp. `data` is the
        out-parameter's value on entry; `out` is its value on return. */
    method Get(data: Wrapped<T>, v: Validator<T>, lockAcquired: bool) returns (ok: bool, out: Wrapped<T>)
      requires Valid()
      modifies this`latestTimeStamp
      ensures Valid()
      ensures (ok, out, Abs()) == GetState(old(Abs()), data, v, lockAcquired)
    {
      out := data;
      var curHead := headIdx;
      if lockAcquired {
        if Accepts(v, dataBuf[curHead]) {
          if dataBuf[curHead].timeStamp != latestTimeStamp {
            latestTimeStamp := dataBuf[curHead].timeStamp;
            out := out.Assign(dataBuf[curHead]);
            return true, out;
          }
        }
      }
      return false, out;
    }
  }
}
