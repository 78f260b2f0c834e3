/** Queues of four slots that make room by dropping the oldest entry. A position counts the entries
    put so far and its slot is its remainder by four, so pointers that wrap at a multiple of four
    will do for it. */
module DropOldest {

  const SLOTS := 4

  // The n entries from position first on.
  function View<T>(slots: seq<T>, first: int, n: nat): (q: seq<T>)
    requires |slots| == SLOTS && n <= SLOTS
    ensures |q| == n
  {
    seq(n, k requires 0 <= k < n => slots[(first + k) % SLOTS])
  }

  // Only the slot of the first position matters.
  lemma ViewWraps<T>(slots: seq<T>, first: int, first': int, n: nat)
    requires |slots| == SLOTS && n <= SLOTS && first % SLOTS == first' % SLOTS
    ensures View(slots, first, n) == View(slots, first', n)
  {
  }

  lemma ViewPut<T>(slots: seq<T>, first: int, n: nat, x: T)
    requires |slots| == SLOTS && n < SLOTS
    ensures View(slots[(first + n) % SLOTS := x], first, n + 1) == View(slots, first, n) + [x]
  {
  }

  lemma ViewOverwrite<T>(slots: seq<T>, first: int, x: T)
    requires |slots| == SLOTS
    ensures View(slots[(first + SLOTS) % SLOTS := x], first + 1, SLOTS) == View(slots, first, SLOTS)[1..] + [x]
  {
  }

  lemma ViewTake<T>(slots: seq<T>, first: int, n: nat)
    requires |slots| == SLOTS && 0 < n <= SLOTS
    ensures View(slots, first + 1, n - 1) == View(slots, first, n)[1..]
    ensures slots[first % SLOTS] == View(slots, first, n)[0]
  {
  }

  // The queue itself.
  function Put<T>(q: seq<T>, x: T): (r: seq<T>)
    requires |q| <= SLOTS
    ensures |r| == (if |q| < 4 then |q| + 1 else 4) && r[|r| - 1] == x
  {
    if |q| < SLOTS then q + [x] else q[1..] + [x]
  }

  // ---------------------------------------------------------------- pointers

  // A pointer counts modulo m, more than a queue's length and a multiple of it.
  ghost predicate Wraps(m: nat) {
    m > SLOTS && m % SLOTS == 0
  }

  function Next(p: nat, m: nat): (r: nat)
    requires p < m
    ensures r < m
  {
    if p == m - 1 then 0 else p + 1
  }

  // How far w is ahead of r.
  function Used(w: nat, r: nat, m: nat): nat
    requires w < m && r < m
  {
    if w >= r then w - r else m + w - r
  }

  function Slot(p: nat): (s: nat)
    ensures s < SLOTS
  {
    p % SLOTS
  }

  lemma PointersPut(w: nat, r: nat, m: nat)
    requires Wraps(m) && w < m && r < m && Used(w, r, m) <= SLOTS
    ensures Used(Next(w, m), r, m) == Used(w, r, m) + 1
    ensures Used(Next(w, m), Next(r, m), m) == Used(w, r, m)
    ensures (r + Used(w, r, m)) % SLOTS == Slot(w)
  {
  }

  lemma PointerTake(w: nat, r: nat, m: nat)
    requires Wraps(m) && w < m && r < m
    ensures (r + 1) % SLOTS == Next(r, m) % SLOTS
    ensures w != r <==> Used(w, r, m) > 0
    ensures w != r ==> Used(w, Next(r, m), m) == Used(w, r, m) - 1
  {
  }

  // An entry written at w and the pointers moved on make the queue with one entry more.
  lemma Stored<T>(slots: seq<T>, w: nat, r: nat, m: nat, x: T)
    requires |slots| == SLOTS && Wraps(m) && w < m && r < m && Used(w, r, m) <= SLOTS
    ensures var n, slots1 := Used(w, r, m), slots[Slot(w) := x];
      && (n < SLOTS ==> View(slots1, r, n + 1) == Put(View(slots, r, n), x))
      && (n == SLOTS ==> View(slots1, Next(r, m), n) == Put(View(slots, r, n), x))
  {
    hide View, Next, Used;
    var n := Used(w, r, m);
    PointersPut(w, r, m);
    PointerTake(w, r, m);
    if n < SLOTS {
      ViewPut(slots, r, n, x);
    } else {
      assert (r + SLOTS) % SLOTS == Slot(w);
      ViewOverwrite(slots, r, x);
      ViewWraps(slots[Slot(w) := x], r + 1, Next(r, m), SLOTS);
    }
  }

  // The entry at r taken.
  lemma Fetched<T>(slots: seq<T>, w: nat, r: nat, m: nat)
    requires |slots| == SLOTS && Wraps(m) && w < m && r < m && 0 < Used(w, r, m) <= SLOTS
    ensures var q := View(slots, r, Used(w, r, m));
      && w != r && slots[Slot(r)] == q[0] && Used(w, Next(r, m), m) == |q| - 1
      && View(slots, Next(r, m), |q| - 1) == q[1..]
  {
    hide View, Next, Used;
    var n := Used(w, r, m);
    PointerTake(w, r, m);
    ViewTake(slots, r, n);
    ViewWraps(slots, r + 1, Next(r, m), n - 1);
  }

  // ---------------------------------------------------------------- runs

  // A run: entries put, and the oldest taken.
  datatype Event<T> = Add(x: T) | Take

  function After<T>(q: seq<T>, run: seq<Event<T>>): (r: seq<T>)
    requires |q| <= SLOTS
    ensures |r| <= SLOTS
  {
    if run == [] then q
    else
      var before := After(q, run[..|run| - 1]);
      match run[|run| - 1]
      case Add(x) => Put(before, x)
      case Take => if before == [] then before else before[1..]
  }

  // What was put in a run, in order, and what was taken.
  function Added<T>(run: seq<Event<T>>): seq<T> {
    if run == [] then []
    else
      var before := Added(run[..|run| - 1]);
      if run[|run| - 1].Add? then before + [run[|run| - 1].x] else before
  }

  function Taken<T>(q: seq<T>, run: seq<Event<T>>): seq<T>
    requires |q| <= SLOTS
  {
    if run == [] then []
    else
      var init := run[..|run| - 1];
      var before := Taken(q, init);
      if run[|run| - 1].Take? && After(q, init) != [] then before + [After(q, init)[0]] else before
  }

  lemma AfterAdd<T>(run: seq<Event<T>>, x: T)
    ensures After([], run + [Add(x)]) == Put(After([], run), x)
    ensures Taken([], run + [Add(x)]) == Taken([], run)
  {
    assert (run + [Add(x)])[..|run|] == run;
  }

  lemma AfterTake<T>(run: seq<Event<T>>)
    requires After([], run) != []
    ensures After([], run + [Take]) == After([], run)[1..]
    ensures Taken([], run + [Take]) == Taken([], run) + [After([], run)[0]]
  {
    assert (run + [Take])[..|run|] == run;
  }

  // s can be had from t by leaving entries out.
  ghost predicate Subsequence<T>(s: seq<T>, t: seq<T>)
    decreases |t|
  {
    if t == [] then s == []
    else
      || Subsequence(s, t[..|t| - 1])
      || (s != [] && s[|s| - 1] == t[|t| - 1] && Subsequence(s[..|s| - 1], t[..|t| - 1]))
  }

  // The places in t of the entries of s: they go up.
  lemma {:induction false} SubsequencePlaces<T>(s: seq<T>, t: seq<T>) returns (places: seq<nat>)
    requires Subsequence(s, t)
    ensures |places| == |s| <= |t|
    ensures forall i :: 0 <= i < |s| ==> places[i] < |t| && t[places[i]] == s[i]
    ensures forall i, j :: 0 <= i < j < |s| ==> places[i] < places[j]
    decreases |t|
  {
    if t == [] {
      places := [];
    } else {
      var n := |t| - 1;
      if Subsequence(s, t[..n]) {
        places := SubsequencePlaces(s, t[..n]);
      } else {
        places := SubsequencePlaces(s[..|s| - 1], t[..n]);
        places := places + [n];
      }
    }
  }

  lemma {:induction false} SubsequenceExtends<T>(s: seq<T>, t: seq<T>, u: seq<T>)
    requires Subsequence(s, t)
    ensures Subsequence(s, t + u) && Subsequence(s + u, t + u)
    decreases |u|
  {
    if u == [] {
      assert s + u == s && t + u == t;
    } else {
      var v := u[..|u| - 1];
      SubsequenceExtends(s, t, v);
      assert (t + u)[..|t + u| - 1] == t + v && (s + u)[..|s + u| - 1] == s + v;
    }
  }

  // What is in the queue are the entries put last, and what was taken are entries put before
  // those, in order and each at most once.
  ghost predicate Newest<T>(put: seq<T>, taken: seq<T>, q: seq<T>) {
    && |q| <= |put| && put[|put| - |q|..] == q
    && Subsequence(taken, put[..|put| - |q|])
  }

  lemma NewestPut<T>(put: seq<T>, taken: seq<T>, q: seq<T>, x: T)
    requires Newest(put, taken, q) && |q| <= SLOTS
    ensures Newest(put + [x], taken, Put(q, x))
  {
    hide Subsequence;
    var cut := |put| - |q|;
    if |q| < SLOTS {
      assert (put + [x])[..cut] == put[..cut];
      assert (put + [x])[cut..] == q + [x];
    } else {
      SubsequenceExtends(taken, put[..cut], [put[cut]]);
      assert (put + [x])[..cut + 1] == put[..cut] + [put[cut]];
      assert (put + [x])[cut + 1..] == q[1..] + [x];
    }
  }

  lemma NewestTake<T>(put: seq<T>, taken: seq<T>, q: seq<T>)
    requires Newest(put, taken, q) && q != []
    ensures Newest(put, taken + [q[0]], q[1..])
  {
    hide Subsequence;
    var cut := |put| - |q|;
    SubsequenceExtends(taken, put[..cut], [q[0]]);
    assert put[cut] == put[cut..][0];
    assert put[..cut + 1] == put[..cut] + [q[0]];
    assert put[cut + 1..] == q[1..];
  }

  // So it is over any run, from any queue: no entry overtakes another and none is delivered twice.
  lemma {:induction false} QueueIsNewest<T>(q: seq<T>, run: seq<Event<T>>)
    requires |q| <= SLOTS
    ensures Newest(q + Added(run), Taken(q, run), After(q, run))
    decreases |run|
  {
    if run == [] {
      assert q + [] == q && q[..0] == [];
    } else {
      hide Newest, Put;
      var init := run[..|run| - 1];
      var put, now, taken := q + Added(init), After(q, init), Taken(q, init);
      QueueIsNewest(q, init);
      match run[|run| - 1]
      case Add(x) =>
        NewestPut(put, taken, now, x);
        assert q + Added(run) == put + [x];
      case Take =>
        if now != [] { NewestTake(put, taken, now); }
    }
  }
}
