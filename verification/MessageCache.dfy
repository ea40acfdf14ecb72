/**
  * The write-ahead message cache of the Kafka client: each keyed message is stored under its topic
  * and a zero-padded number before it is sent, removed when its receipt arrives, and evicted once
  * 50000 newer numbers exist.  Numbers come from a counter stored under a key that sorts after
  * every message.  The store is an ordered map on strings.
  */
module MessageCache {
  const NUM_MAX: nat := 50000
  const COUNTER_MAX: nat := 0x7fff_ffff_ffff_ffff

  // ---------------------------------------------------------------- numbers as text

  function Digit(d: nat): (c: char)
    requires d < 10
    ensures '0' <= c <= '9'
  {
    '0' + d as char
  }

  // Decimal with leading zeros up to `width` characters.
  function Padded(n: nat, width: nat): (r: string)
    ensures |r| == width
    ensures forall i :: 0 <= i < width ==> '0' <= r[i] <= '9'
    decreases width
  {
    if width == 0 then [] else Padded(n / 10, width - 1) + [Digit(n % 10)]
  }

  function Decimal(n: nat): (r: string)
    ensures |r| > 0 && forall i :: 0 <= i < |r| ==> '0' <= r[i] <= '9'
  {
    if n < 10 then [Digit(n)] else Decimal(n / 10) + [Digit(n % 10)]
  }

  // atol on a string of digits.
  function Value(s: string): nat
    requires forall i :: 0 <= i < |s| ==> '0' <= s[i] <= '9'
  {
    if s == [] then 0 else 10 * Value(s[..|s| - 1]) + (s[|s| - 1] - '0') as nat
  }

  function Pow10(k: nat): (r: nat)
    ensures r >= 1
  {
    if k == 0 then 1 else 10 * Pow10(k - 1)
  }

  lemma DigitValue(d: nat)
    requires d < 10
    ensures (Digit(d) - '0') as nat == d
  {
  }

  lemma ValueSnoc(s: string, d: nat)
    requires d < 10 && forall i :: 0 <= i < |s| ==> '0' <= s[i] <= '9'
    ensures Value(s + [Digit(d)]) == 10 * Value(s) + d
  {
    DigitValue(d);
    assert (s + [Digit(d)])[..|s|] == s;
  }

  lemma {:induction false} PaddedValue(n: nat, width: nat)
    requires n < Pow10(width)
    ensures Value(Padded(n, width)) == n
    decreases width
  {
    if width > 0 {
      PaddedValue(n / 10, width - 1);
      ValueSnoc(Padded(n / 10, width - 1), n % 10);
    }
  }

  lemma {:induction false} DecimalValue(n: nat)
    ensures Value(Decimal(n)) == n
  {
    if n < 10 {
      ValueSnoc([], n);
      assert [] + [Digit(n)] == [Digit(n)];
    } else {
      DecimalValue(n / 10);
      ValueSnoc(Decimal(n / 10), n % 10);
    }
  }

  lemma {:induction false} CounterFits()
    ensures COUNTER_MAX < Pow10(20)
  {
    assert Pow10(5) == 100000;
    assert Pow10(10) == 10000000000;
    assert Pow10(15) == 1000000000000000;
    assert Pow10(20) == 100000000000000000000;
  }

  // ---------------------------------------------------------------- the order of keys

  // memcmp, then length.
  predicate Less(a: string, b: string) {
    if a == [] then b != []
    else b != [] && (a[0] < b[0] || (a[0] == b[0] && Less(a[1..], b[1..])))
  }

  lemma {:induction false} LessPrefix(p: string, a: string, b: string)
    ensures Less(p + a, p + b) == Less(a, b)
    decreases |p|
  {
    if p == [] {
      assert p + a == a && p + b == b;
    } else {
      LessPrefix(p[1..], a, b);
      assert (p + a)[1..] == p[1..] + a && (p + b)[1..] == p[1..] + b;
    }
  }

  lemma {:induction false} LessSnoc(a: string, b: string, x: char, y: char)
    requires |a| == |b|
    ensures Less(a + [x], b + [y]) <==> (Less(a, b) || (a == b && x < y))
    decreases |a|
  {
    if a == [] {
      assert a + [x] == [x] && b + [y] == [y];
    } else {
      LessSnoc(a[1..], b[1..], x, y);
      assert (a + [x])[1..] == a[1..] + [x] && (b + [y])[1..] == b[1..] + [y];
      assert a == [a[0]] + a[1..] && b == [b[0]] + b[1..];
    }
  }

  // Padded numbers sort as numbers.
  lemma {:induction false} PaddedOrder(m: nat, n: nat, width: nat)
    requires m < Pow10(width) && n < Pow10(width)
    ensures Less(Padded(m, width), Padded(n, width)) <==> m < n
    ensures Padded(m, width) == Padded(n, width) <==> m == n
    decreases width
  {
    if width > 0 {
      PaddedOrder(m / 10, n / 10, width - 1);
      LessSnoc(Padded(m / 10, width - 1), Padded(n / 10, width - 1), Digit(m % 10), Digit(n % 10));
      LastDigits(Padded(m / 10, width - 1), Padded(n / 10, width - 1), m % 10, n % 10);
    }
  }

  lemma LastDigits(a: string, b: string, c: nat, d: nat)
    requires c < 10 && d < 10
    ensures a + [Digit(c)] == b + [Digit(d)] <==> a == b && c == d
    ensures Digit(c) < Digit(d) <==> c < d
  {
    DigitValue(c);
    DigitValue(d);
    if a + [Digit(c)] == b + [Digit(d)] {
      assert a == (a + [Digit(c)])[..|a|] && b == (b + [Digit(d)])[..|b|];
      assert (a + [Digit(c)])[|a|] == Digit(c) && (b + [Digit(d)])[|b|] == Digit(d);
    }
  }

  function MessageKey(topic: string, id: nat): string {
    topic + Padded(id, 20)
  }

  function CounterKey(topic: string): string {
    "~~zz" + topic
  }

  ghost predicate TopicOk(topic: string) {
    forall i :: 0 <= i < |topic| ==> topic[i] < '~'
  }

  lemma MessageOrder(topic: string, m: nat, n: nat)
    requires m <= COUNTER_MAX && n <= COUNTER_MAX
    ensures Less(MessageKey(topic, m), MessageKey(topic, n)) <==> m < n
    ensures MessageKey(topic, m) == MessageKey(topic, n) <==> m == n
  {
    hide Padded, Less, Pow10;
    CounterFits();
    PaddedOrder(m, n, 20);
    LessPrefix(topic, Padded(m, 20), Padded(n, 20));
    if MessageKey(topic, m) == MessageKey(topic, n) {
      assert MessageKey(topic, m)[|topic|..] == Padded(m, 20) && MessageKey(topic, n)[|topic|..] == Padded(n, 20);
    }
  }

  // The counter sorts after every message.
  lemma CounterLast(topic: string, id: nat)
    requires TopicOk(topic)
    ensures Less(MessageKey(topic, id), CounterKey(topic))
    ensures MessageKey(topic, id) != CounterKey(topic)
  {
    hide Padded;
    var k := MessageKey(topic, id);
    assert k[0] < '~' by {
      if topic == [] {
        assert k == Padded(id, 20);
      } else {
        assert k[0] == topic[0];
      }
    }
    assert CounterKey(topic)[0] == '~';
  }

  // The number in a message key, as the eviction loop reads it.
  lemma KeyNumber(topic: string, id: nat)
    requires id <= COUNTER_MAX
    ensures MessageKey(topic, id)[|topic|..] == Padded(id, 20) && Value(Padded(id, 20)) == id
  {
    hide Padded, Pow10, Value;
    CounterFits();
    PaddedValue(id, 20);
  }

  // ---------------------------------------------------------------- cache and store

  // The next number and the messages held, by number.
  datatype Cache = Cache(num: nat, cached: map<nat, string>)

  ghost predicate CacheOk(c: Cache) {
    c.num <= COUNTER_MAX && forall i <- c.cached :: i < c.num
  }

  // The store that stands for a cache: one key per message, and the counter once a number is used.
  ghost predicate Holds(store: map<string, string>, topic: string, c: Cache) {
    && (forall i <- c.cached :: MessageKey(topic, i) in store && store[MessageKey(topic, i)] == c.cached[i])
    && (CounterKey(topic) in store <==> c.num > 0)
    && (c.num > 0 ==> store[CounterKey(topic)] == Decimal(c.num))
    && (forall k <- store :: k == CounterKey(topic) || IsMessage(topic, c, k))
  }

  ghost predicate IsMessage(topic: string, c: Cache, k: string) {
    exists i: nat :: i in c.cached && k == MessageKey(topic, i)
  }

  predicate First(store: map<string, string>, k: string) {
    k in store && forall l <- store :: l == k || Less(k, l)
  }

  // A cached number below all others owns the first key.
  lemma FirstKey(store: map<string, string>, topic: string, c: Cache, k: string) returns (id: nat)
    requires TopicOk(topic) && CacheOk(c) && Holds(store, topic, c) && c.cached.Keys != {}
    requires First(store, k)
    ensures id in c.cached && k == MessageKey(topic, id)
    ensures forall i <- c.cached :: id <= i
  {
    hide Padded, Less;
    var some: nat :| some in c.cached;
    CounterLast(topic, some);
    if k == CounterKey(topic) {
      Antisymmetric(k, MessageKey(topic, some));
    }
    assert IsMessage(topic, c, k);
    id :| id in c.cached && k == MessageKey(topic, id);
    forall i <- c.cached
      ensures id <= i
    {
      MessageOrder(topic, id, i);
      assert MessageKey(topic, i) in store;
    }
  }

  lemma {:induction false} Antisymmetric(a: string, b: string)
    ensures !(Less(a, b) && Less(b, a)) && !Less(a, a)
    decreases |a|
  {
    if a != [] {
      if b != [] {
        Antisymmetric(a[1..], b[1..]);
      } else {
        Antisymmetric(a[1..], a[1..]);
      }
    }
  }

  lemma {:induction false} Trichotomy(a: string, b: string)
    ensures a == b || Less(a, b) || Less(b, a)
    decreases |a|
  {
    if a != [] && b != [] {
      Trichotomy(a[1..], b[1..]);
      assert a == [a[0]] + a[1..] && b == [b[0]] + b[1..];
    }
  }

  lemma {:induction false} Transitive(a: string, b: string, c: string)
    requires Less(a, b) && Less(b, c)
    ensures Less(a, c)
    decreases |a|
  {
    if a != [] && a[0] == b[0] && b[0] == c[0] {
      Transitive(a[1..], b[1..], c[1..]);
    }
  }

  // A store that is not empty has a first key.
  lemma {:induction false} FirstExists(store: map<string, string>) returns (k: string)
    requires |store| > 0
    ensures First(store, k)
    decreases |store|
  {
    hide Less;
    var any :| any in store;
    var rest := store - {any};
    if |rest| == 0 {
      k := any;
      assert forall l <- store :: l == any || l in rest;
    } else {
      assert rest.Keys == store.Keys - {any};
      var l := FirstExists(rest);
      Trichotomy(any, l);
      k := if Less(any, l) then any else l;
      forall m <- store
        ensures m == k || Less(k, m)
      {
        if m != any && m in rest && Less(any, l) && m != l {
          Transitive(any, l, m);
        }
      }
    }
  }

  // ---------------------------------------------------------------- steps

  // A send stores its message and keeps the numbers at most NUM_MAX below its own.
  function SendStep(c: Cache, msg: string): Cache {
    var held := c.cached[c.num := msg];
    Cache(c.num + 1, if c.num > NUM_MAX then map i | i in held && c.num - i <= NUM_MAX :: held[i] else held)
  }

  // A receipt forgets one number.
  function ReceiptStep(c: Cache, id: int): Cache {
    if id >= 0 then Cache(c.num, c.cached - {id}) else c
  }

  // The key a receipt asks to delete; a negative number prints with a sign.
  function ReceiptKey(topic: string, id: int): string {
    if id >= 0 then MessageKey(topic, id) else topic + "-" + Padded(-id, 20)
  }

  class Storage {
    var store: map<string, string>

    // The counter, or 0 when it is missing.
    method ReadCounter(topic: string, ghost c: Cache) returns (num: nat)
      requires TopicOk(topic) && CacheOk(c) && Holds(store, topic, c)
      ensures num == c.num
    {
      hide Value, Decimal;
      num := 0;
      if CounterKey(topic) in store {
        DecimalValue(c.num);
        num := Value(store[CounterKey(topic)]);
      }
    }

    // Evict the first message while it is more than NUM_MAX numbers old.
    method Evict(topic: string, num: nat, ghost c0: Cache) returns (ghost c: Cache)
      requires TopicOk(topic) && CacheOk(c0) && Holds(store, topic, c0)
      requires c0.num == num + 1 && num in c0.cached
      modifies this
      ensures CacheOk(c) && Holds(store, topic, c) && c.num == c0.num
      ensures c.cached == if num > NUM_MAX then (map i | i in c0.cached && num - i <= NUM_MAX :: c0.cached[i]) else c0.cached
    {
      hide Holds, First, Padded, Value, Less;
      c := c0;
      while num > NUM_MAX
        invariant CacheOk(c) && Holds(store, topic, c) && c.num == num + 1 && num in c.cached
        invariant forall i <- c.cached :: i in c0.cached && c.cached[i] == c0.cached[i]
        invariant forall i <- c0.cached :: i in c.cached || num - i > NUM_MAX
        decreases |c.cached|
      {
        StoreNotEmpty(store, topic, c);
        ghost var least := FirstExists(store);
        FirstIn(store, least);
        var first :| first in store && First(store, first);
        ghost var id := FirstKey(store, topic, c, first);
        KeyNumber(topic, id);
        var offset := Value(first[|topic|..]);
        if num - offset > NUM_MAX {
          Removed(store, topic, c, id);
          store := store - {first};
          ghost var before := c.cached;
          c := Cache(c.num, c.cached - {id});
          assert c.cached.Keys == before.Keys - {id};
        } else {
          break;
        }
      }
    }

    // Store the message, advance the counter, evict; returns the number given to the message.
    method Send(topic: string, msg: string, ghost c: Cache) returns (num: nat)
      requires TopicOk(topic) && CacheOk(c) && c.num < COUNTER_MAX && Holds(store, topic, c)
      modifies this
      ensures num == c.num
      ensures CacheOk(SendStep(c, msg)) && Holds(store, topic, SendStep(c, msg))
    {
      hide Holds, Padded, Decimal;
      num := ReadCounter(topic, c);
      ghost var next := Cache(num + 1, c.cached[num := msg]);
      Stored(store, topic, c, msg);
      store := store[MessageKey(topic, num) := msg];
      store := store[CounterKey(topic) := Decimal(num + 1)];
      ghost var after := Evict(topic, num, next);
      assert after == SendStep(c, msg);
    }

    // Remove the message a receipt names; tells whether it was there.
    method Receipt(topic: string, id: int, ghost c: Cache) returns (found: bool)
      requires TopicOk(topic) && CacheOk(c) && Holds(store, topic, c) && id <= COUNTER_MAX
      modifies this
      ensures found <==> id >= 0 && id in c.cached
      ensures CacheOk(ReceiptStep(c, id)) && Holds(store, topic, ReceiptStep(c, id))
    {
      hide Holds, Padded;
      var key := ReceiptKey(topic, id);
      ReceiptFound(store, topic, c, id);
      found := key in store;
      if found {
        Removed(store, topic, c, id);
        store := store - {key};
      } else if id >= 0 {
        assert c.cached - {id} == c.cached;
      }
    }
  }

  lemma FirstIn(store: map<string, string>, k: string)
    requires First(store, k)
    ensures k in store
  {
  }

  lemma StoreNotEmpty(store: map<string, string>, topic: string, c: Cache)
    requires Holds(store, topic, c) && c.cached.Keys != {}
    ensures |store| > 0
  {
    var i :| i in c.cached;
    assert MessageKey(topic, i) in store.Keys;
  }

  lemma Removed(store: map<string, string>, topic: string, c: Cache, id: nat)
    requires TopicOk(topic) && CacheOk(c) && Holds(store, topic, c) && id in c.cached
    ensures Holds(store - {MessageKey(topic, id)}, topic, Cache(c.num, c.cached - {id}))
  {
    hide Padded, Decimal;
    var next := Cache(c.num, c.cached - {id});
    var now := store - {MessageKey(topic, id)};
    CounterLast(topic, id);
    forall i <- next.cached
      ensures MessageKey(topic, i) in now && now[MessageKey(topic, i)] == next.cached[i]
    {
      MessageOrder(topic, i, id);
    }
    forall k <- now
      ensures k == CounterKey(topic) || IsMessage(topic, next, k)
    {
      if k != CounterKey(topic) {
        assert IsMessage(topic, c, k);
        var i: nat :| i in c.cached && k == MessageKey(topic, i);
        assert i in next.cached;
      }
    }
  }

  lemma Stored(store: map<string, string>, topic: string, c: Cache, msg: string)
    requires TopicOk(topic) && CacheOk(c) && c.num < COUNTER_MAX && Holds(store, topic, c)
    ensures Holds(store[MessageKey(topic, c.num) := msg][CounterKey(topic) := Decimal(c.num + 1)], topic,
                  Cache(c.num + 1, c.cached[c.num := msg]))
  {
    hide Padded, Decimal;
    var next := Cache(c.num + 1, c.cached[c.num := msg]);
    var now := store[MessageKey(topic, c.num) := msg][CounterKey(topic) := Decimal(c.num + 1)];
    forall i <- next.cached
      ensures MessageKey(topic, i) in now && now[MessageKey(topic, i)] == next.cached[i]
    {
      MessageOrder(topic, i, c.num);
      CounterLast(topic, i);
    }
    forall k <- now
      ensures k == CounterKey(topic) || IsMessage(topic, next, k)
    {
      if k != CounterKey(topic) && k != MessageKey(topic, c.num) {
        assert IsMessage(topic, c, k);
        var i: nat :| i in c.cached && k == MessageKey(topic, i);
        assert i in next.cached;
      } else if k == MessageKey(topic, c.num) {
        assert c.num in next.cached;
      }
    }
  }

  lemma ReceiptFound(store: map<string, string>, topic: string, c: Cache, id: int)
    requires TopicOk(topic) && CacheOk(c) && Holds(store, topic, c) && id <= COUNTER_MAX
    ensures ReceiptKey(topic, id) in store <==> id >= 0 && id in c.cached
  {
    hide Padded, Decimal;
    var key := ReceiptKey(topic, id);
    if id >= 0 {
      CounterLast(topic, id);
      if key in store {
        assert IsMessage(topic, c, key);
        var i: nat :| i in c.cached && key == MessageKey(topic, i);
        MessageOrder(topic, i, id);
      }
    } else if key in store {
      SignedKey(topic, -id, c, key);
    }
  }

  // A number with a sign is no message and not the counter.
  lemma SignedKey(topic: string, n: nat, c: Cache, key: string)
    requires TopicOk(topic) && key == topic + "-" + Padded(n, 20)
    ensures key != CounterKey(topic) && !IsMessage(topic, c, key)
  {
    hide Padded;
    assert key[|topic|] == '-';
    forall i: nat
      ensures key != MessageKey(topic, i)
    {
      assert MessageKey(topic, i)[|topic|] == Padded(i, 20)[0];
    }
    assert key[0] != '~' by {
      if topic != [] {
        assert key[0] == topic[0];
      }
    }
  }

  // ---------------------------------------------------------------- runs

  datatype Op = Send(msg: string) | Receipt(id: int)

  function Run(ops: seq<Op>): Cache {
    if ops == [] then Cache(0, map[])
    else
      var c := Run(ops[..|ops| - 1]);
      match ops[|ops| - 1]
      case Send(msg) => SendStep(c, msg)
      case Receipt(id) => ReceiptStep(c, id)
  }

  // The messages accepted so far; a message's number is its place in this list.
  function Accepted(ops: seq<Op>): seq<string> {
    if ops == [] then []
    else
      var before := Accepted(ops[..|ops| - 1]);
      match ops[|ops| - 1]
      case Send(msg) => before + [msg]
      case Receipt(_) => before
  }

  // A receipt came after the number was given out.
  ghost predicate Acknowledged(ops: seq<Op>, id: nat) {
    exists k :: 0 <= k < |ops| && ops[k] == Receipt(id) && id < |Accepted(ops[..k])|
  }

  lemma AcknowledgedNext(ops: seq<Op>, op: Op, id: nat)
    ensures Acknowledged(ops + [op], id) <==> Acknowledged(ops, id) || (op == Receipt(id) && id < |Accepted(ops)|)
  {
    var all, n := ops + [op], |ops|;
    assert forall k :: 0 <= k <= n ==> all[..k] == ops[..k];
    assert ops[..n] == ops && all[n] == op;
    if Acknowledged(ops, id) {
      var k :| 0 <= k < n && ops[k] == Receipt(id) && id < |Accepted(ops[..k])|;
      assert all[k] == Receipt(id);
    }
  }

  // In every run: numbers are given out in order and never again, and the cache holds exactly the
  // messages accepted that are neither acknowledged nor more than NUM_MAX numbers old.
  lemma {:induction false} RunKeeps(ops: seq<Op>)
    ensures var c, sent := Run(ops), Accepted(ops);
      && c.num == |sent|
      && (forall i <- c.cached :: i < c.num && c.cached[i] == sent[i])
      && (forall i: nat :: i in c.cached <==> i < c.num && !Acknowledged(ops, i) && c.num - 1 - i <= NUM_MAX)
    decreases |ops|
  {
    hide Acknowledged;
    if ops == [] {
      NoneAcknowledged();
    } else {
      var before, last := ops[..|ops| - 1], ops[|ops| - 1];
      assert ops == before + [last];
      RunKeeps(before);
      var c := Run(ops);
      forall i: nat
        ensures i in c.cached <==> i < c.num && !Acknowledged(ops, i) && c.num - 1 - i <= NUM_MAX
      {
        AcknowledgedNext(before, last, i);
        NotYet(before, i);
      }
    }
  }

  lemma NoneAcknowledged()
    ensures forall i: nat :: !Acknowledged([], i)
  {
  }

  // Only what was accepted is acknowledged.
  lemma NotYet(ops: seq<Op>, id: nat)
    ensures Acknowledged(ops, id) ==> id < |Accepted(ops)|
  {
    if Acknowledged(ops, id) {
      var k :| 0 <= k < |ops| && ops[k] == Receipt(id) && id < |Accepted(ops[..k])|;
      AcceptedGrows(ops, k);
    }
  }

  lemma {:induction false} AcceptedGrows(ops: seq<Op>, k: nat)
    requires k <= |ops|
    ensures |Accepted(ops[..k])| <= |Accepted(ops)|
    decreases |ops|
  {
    if k == |ops| {
      assert ops[..k] == ops;
    } else {
      var before := ops[..|ops| - 1];
      assert before[..k] == ops[..k];
      AcceptedGrows(before, k);
    }
  }

  // At most 50001 messages are ever held.
  lemma RunBound(ops: seq<Op>)
    ensures |Run(ops).cached| <= 50001
  {
    RunKeeps(ops);
    var c := Run(ops);
    var low := if c.num > NUM_MAX + 1 then c.num - 1 - NUM_MAX else 0;
    Interval(c.cached.Keys, low, c.num);
  }

  lemma {:induction false} Interval(s: set<nat>, low: nat, high: nat)
    requires low <= high && forall i <- s :: low <= i < high
    ensures |s| <= high - low
    decreases high - low
  {
    if low == high {
      assert s == {};
    } else {
      var top := high - 1;
      Interval(s - {top}, low, top);
      if top in s {
        assert s == (s - {top}) + {top};
      } else {
        assert s - {top} == s;
      }
    }
  }

  // The same, of the running program: a driver that keeps the store in step with the run.
  method Drive(topic: string, ops: seq<Op>, db: Storage) returns (ids: seq<nat>)
    requires TopicOk(topic) && db.store == map[] && |ops| < COUNTER_MAX
    requires forall k :: 0 <= k < |ops| && ops[k].Receipt? ==> ops[k].id <= COUNTER_MAX
    modifies db
    ensures Holds(db.store, topic, Run(ops))
    ensures |ids| == |Accepted(ops)| && forall k :: 0 <= k < |ids| ==> ids[k] == k
  {
    hide Holds, SendStep, ReceiptStep, Padded;
    ids := [];
    EmptyStore(topic);
    var n := 0;
    assert ops[..0] == [];
    while n < |ops|
      invariant 0 <= n <= |ops|
      invariant CacheOk(Run(ops[..n])) && Holds(db.store, topic, Run(ops[..n]))
      invariant Run(ops[..n]).num == |Accepted(ops[..n])| == |ids| <= n
      invariant forall k :: 0 <= k < |ids| ==> ids[k] == k
    {
      ghost var c := Run(ops[..n]);
      assert ops[..n + 1][..n] == ops[..n] && ops[..n + 1][n] == ops[n];
      RunKeeps(ops[..n + 1]);
      match ops[n] {
        case Send(msg) =>
          var id := db.Send(topic, msg, c);
          ids := ids + [id];
        case Receipt(id) =>
          var _ := db.Receipt(topic, id, c);
      }
      n := n + 1;
    }
    assert ops[..n] == ops;
  }

  lemma EmptyStore(topic: string)
    ensures Holds(map[], topic, Run([])) && CacheOk(Run([]))
  {
  }
}
