/** Cursor paging over an account's transaction history. */
module Paging {
  import opened Common
  import opened Ledger

  /** Timestamps are in nanoseconds; cursors only carry milliseconds. */
  datatype TransactionRecord = TransactionRecord(from: Address, to: Address, amount: U64, timestamp: int,
                                                 hash: string) {
    function Millis(): int {
      timestamp / 1_000_000
    }

    predicate Concerns(a: Address) {
      from == a || to == a
    }
  }

  type Records = seq<TransactionRecord>

  // ----- the listing: filter, then a stable sort, newest first

  function OfAccount(history: Records, a: Address): Records {
    if history == [] then []
    else OfAccount(history[..|history| - 1], a)
         + if history[|history| - 1].Concerns(a) then [history[|history| - 1]] else []
  }

  /** First index whose record is older than `x`: later arrivals go behind records of the same age. */
  function Slot(s: Records, x: TransactionRecord): (k: nat)
    ensures k <= |s|
    ensures forall i :: 0 <= i < k ==> s[i].timestamp >= x.timestamp
    ensures k < |s| ==> s[k].timestamp < x.timestamp
  {
    if s == [] || s[0].timestamp < x.timestamp then 0 else 1 + Slot(s[1..], x)
  }

  function Insert(s: Records, x: TransactionRecord): Records {
    s[..Slot(s, x)] + [x] + s[Slot(s, x)..]
  }

  function SortNewest(s: Records): (r: Records)
    ensures |r| == |s|
  {
    if s == [] then [] else Insert(SortNewest(s[..|s| - 1]), s[|s| - 1])
  }

  ghost predicate Descending(s: Records) {
    forall i, j :: 0 <= i < j < |s| ==> s[i].timestamp >= s[j].timestamp
  }

  ghost function At(s: Records, t: int): Records {
    if s == [] then [] else At(s[..|s| - 1], t) + if s[|s| - 1].timestamp == t then [s[|s| - 1]] else []
  }

  lemma {:induction false} AtConcat(a: Records, b: Records, t: int)
    ensures At(a + b, t) == At(a, t) + At(b, t)
  {
    if b == [] {
      assert a + b == a;
    } else {
      AtConcat(a, b[..|b| - 1], t);
      assert (a + b)[..|a + b| - 1] == a + b[..|b| - 1];
    }
  }

  lemma {:induction false} AtNone(s: Records, t: int)
    requires forall i :: 0 <= i < |s| ==> s[i].timestamp != t
    ensures At(s, t) == []
  {
    if s != [] {
      AtNone(s[..|s| - 1], t);
    }
  }

  lemma InsertDescending(r: Records, x: TransactionRecord)
    requires Descending(r)
    ensures Descending(Insert(r, x))
  {
    var k, q := Slot(r, x), Insert(r, x);
    forall i, j | 0 <= i < j < |q| ensures q[i].timestamp >= q[j].timestamp {
      assert q[i] == if i < k then r[i] else if i == k then x else r[i - 1];
      assert q[j] == if j < k then r[j] else if j == k then x else r[j - 1];
      if i == k && j > k + 1 {
        assert r[k].timestamp >= r[j - 1].timestamp;
      }
    }
  }

  lemma {:induction false} SortDescends(s: Records)
    ensures Descending(SortNewest(s))
  {
    if s != [] {
      SortDescends(s[..|s| - 1]);
      InsertDescending(SortNewest(s[..|s| - 1]), s[|s| - 1]);
    }
  }

  lemma MultisetInsert<T>(r: seq<T>, k: nat, x: T)
    requires k <= |r|
    ensures multiset(r[..k] + [x] + r[k..]) == multiset(r) + multiset{x}
  {
    assert r == r[..k] + r[k..];
  }

  lemma InsertPermutes(r: Records, x: TransactionRecord)
    ensures multiset(Insert(r, x)) == multiset(r) + multiset{x}
  {
    MultisetInsert(r, Slot(r, x), x);
  }

  lemma {:induction false} SortPermutes(s: Records)
    ensures multiset(SortNewest(s)) == multiset(s)
  {
    if s != [] {
      hide Insert;
      var init, x := s[..|s| - 1], s[|s| - 1];
      SortPermutes(init);
      InsertPermutes(SortNewest(init), x);
      assert s == init + [x];
    }
  }

  lemma SingleAt(x: TransactionRecord, t: int)
    ensures At([x], t) == if x.timestamp == t then [x] else []
  {
    assert [x][..0] == [];
  }

  lemma AtMiddle(lo: Records, x: TransactionRecord, hi: Records, t: int)
    requires x.timestamp == t ==> At(hi, t) == []
    ensures At(lo + [x] + hi, t) == At(lo + hi, t) + if x.timestamp == t then [x] else []
  {
    SingleAt(x, t);
    hide At;
    AtConcat(lo, hi, t);
    AtConcat(lo + [x], hi, t);
    AtConcat(lo, [x], t);
  }

  lemma NothingThatYoung(r: Records, x: TransactionRecord)
    requires Descending(r)
    ensures forall i :: 0 <= i < |r[Slot(r, x)..]| ==> r[Slot(r, x)..][i].timestamp < x.timestamp
  {
    var k := Slot(r, x);
    forall i | 0 <= i < |r| - k ensures r[k..][i].timestamp < x.timestamp {
      assert r[k..][i] == r[k + i] && r[k].timestamp >= r[k + i].timestamp;
    }
  }

  lemma InsertKeepsOrder(r: Records, x: TransactionRecord, t: int)
    requires Descending(r)
    ensures At(Insert(r, x), t) == At(r, t) + if x.timestamp == t then [x] else []
  {
    var lo, hi := r[..Slot(r, x)], r[Slot(r, x)..];
    NothingThatYoung(r, x);
    assert r == lo + hi && Insert(r, x) == lo + [x] + hi;
    hide Slot, Descending, At, Insert;
    if x.timestamp == t {
      AtNone(hi, t);
    }
    AtMiddle(lo, x, hi, t);
  }

  lemma {:induction false} SortKeepsOrder(s: Records, t: int)
    ensures At(SortNewest(s), t) == At(s, t)
  {
    if s != [] {
      SortKeepsOrder(s[..|s| - 1], t);
      SortDescends(s[..|s| - 1]);
      hide Descending;
      InsertKeepsOrder(SortNewest(s[..|s| - 1]), s[|s| - 1], t);
    }
  }

  /** The listing is the stable descending sort: ordered, a permutation, and equal times keep their order. */
  lemma SortIsStable(s: Records)
    ensures Descending(SortNewest(s)) && multiset(SortNewest(s)) == multiset(s)
    ensures forall t :: At(SortNewest(s), t) == At(s, t)
  {
    SortDescends(s);
    SortPermutes(s);
    forall t ensures At(SortNewest(s), t) == At(s, t) {
      SortKeepsOrder(s, t);
    }
  }

  lemma {:induction false} AccountRecords(history: Records, a: Address, x: TransactionRecord)
    ensures multiset(OfAccount(history, a))[x] == if x.from == a || x.to == a then multiset(history)[x] else 0
  {
    if history != [] {
      var init, last := history[..|history| - 1], history[|history| - 1];
      AccountRecords(init, a, x);
      assert history == init + [last];
    }
  }

  /** An account is shown every record it sent or received, as often as it was recorded, and no other. */
  lemma ListingExactly(history: Records, a: Address, x: TransactionRecord)
    ensures multiset(SortNewest(OfAccount(history, a)))[x]
         == if x.from == a || x.to == a then multiset(history)[x] else 0
  {
    SortPermutes(OfAccount(history, a));
    AccountRecords(history, a, x);
  }

  // ----- cursors

  function Digit(d: nat): char
    requires d < 10
  {
    '0' + d as char
  }

  function ShowNat(n: nat): (s: string)
    ensures s != [] && forall i :: 0 <= i < |s| ==> '0' <= s[i] <= '9'
  {
    if n < 10 then [Digit(n)] else ShowNat(n / 10) + [Digit(n % 10)]
  }

  function ShowInt(n: int): string {
    if n < 0 then "-" + ShowNat(-n) else ShowNat(n)
  }

  function ParseNat(s: string): Option<nat> {
    if s == [] then None
    else
      var c := s[|s| - 1];
      if !('0' <= c <= '9') then None
      else if |s| == 1 then Some(c as int - '0' as int)
      else match ParseNat(s[..|s| - 1])
        case None => None
        case Some(n) => Some(n * 10 + (c as int - '0' as int))
  }

  /** `parse::<i64>`: an optional sign, digits, and the 64-bit range. */
  function ParseI64(s: string): Option<I64> {
    if s == [] then None
    else
      var body := if s[0] == '-' || s[0] == '+' then s[1..] else s;
      match ParseNat(body)
      case None => None
      case Some(n) =>
        var v: int := if s[0] == '-' then -(n as int) else n;
        if -U64_LIMIT <= 2 * v < U64_LIMIT then Some(v) else None
  }

  lemma {:induction false} ParseShowNat(n: nat)
    ensures ParseNat(ShowNat(n)) == Some(n)
  {
    if n >= 10 {
      ParseShowNat(n / 10);
      var s := ShowNat(n);
      assert s[..|s| - 1] == ShowNat(n / 10);
    }
  }

  lemma ParseShowInt(n: I64)
    ensures ParseI64(ShowInt(n)) == Some(n)
  {
    hide ShowNat, ParseNat;
    if n < 0 {
      var m: nat := -(n as int);
      ParseShowNat(m);
      assert ShowInt(n)[1..] == ShowNat(m);
    } else {
      ParseShowNat(n);
    }
  }

  function Split(s: string): (parts: seq<string>)
    ensures parts != []
  {
    if s == [] then [""]
    else
      var rest := Split(s[1..]);
      if s[0] == ':' then [""] + rest else [[s[0]] + rest[0]] + rest[1..]
  }

  lemma {:induction false} SplitPlain(s: string)
    requires ':' !in s
    ensures Split(s) == [s]
  {
    if s != [] {
      SplitPlain(s[1..]);
      assert s == [s[0]] + s[1..];
    }
  }

  lemma {:induction false} SplitAtColon(a: string, b: string)
    requires ':' !in a && ':' !in b
    ensures Split(a + ":" + b) == [a, b]
  {
    if a == [] {
      assert (a + ":" + b)[1..] == b;
      SplitPlain(b);
    } else {
      SplitAtColon(a[1..], b);
      assert (a + ":" + b)[1..] == a[1..] + ":" + b;
      assert a == [a[0]] + a[1..];
    }
  }

  function MakeCursor(x: TransactionRecord): string {
    ShowInt(x.Millis()) + ":" + x.hash
  }

  /** A cursor names the whole millisecond a record falls into. */
  lemma MillisFloor(x: TransactionRecord)
    ensures x.Millis() * 1_000_000 <= x.timestamp < (x.Millis() + 1) * 1_000_000
  {
  }

  /** A cursor that does not split in two is ignored; an unreadable timestamp reads as zero. */
  function ReadCursor(cursor: string): Option<(I64, string)> {
    var parts := Split(cursor);
    if |parts| != 2 then None
    else Some((match ParseI64(parts[0]) { case Some(n) => n case None => 0 }, parts[1]))
  }

  ghost predicate GoodRecord(x: TransactionRecord) {
    ':' !in x.hash && -U64_LIMIT <= 2 * x.Millis() < U64_LIMIT
  }

  lemma CursorRoundTrip(x: TransactionRecord)
    requires GoodRecord(x)
    ensures ReadCursor(MakeCursor(x)) == Some((x.Millis(), x.hash))
  {
    ParseShowInt(x.Millis());
    hide ParseI64, ShowNat;
    assert ':' !in ShowInt(x.Millis());
    SplitAtColon(ShowInt(x.Millis()), x.hash);
  }

  /** Any text that does not split in two is no cursor; of one that does, an unreadable time reads as zero. */
  lemma CursorReads(time: string, hash: string)
    requires ':' !in time
    ensures ReadCursor(time) == None
    ensures ':' !in hash ==>
              ReadCursor(time + ":" + hash)
              == Some((match ParseI64(time) { case Some(n) => n case None => 0 }, hash))
  {
    SplitPlain(time);
    if ':' !in hash {
      SplitAtColon(time, hash);
    }
  }

  predicate Names(key: (I64, string), x: TransactionRecord) {
    x.Millis() == key.0 && x.hash == key.1
  }

  /** Index after the first record the key names, or 0. */
  function StartAfter(txs: Records, key: (I64, string), i: nat): nat
    requires i <= |txs|
    decreases |txs| - i
  {
    if i == |txs| then 0 else if Names(key, txs[i]) then i + 1 else StartAfter(txs, key, i + 1)
  }

  function Start(txs: Records, cursor: Option<string>): nat {
    if cursor.None? then 0
    else
      var key := ReadCursor(cursor.value);
      if key.None? then 0 else StartAfter(txs, key.value, 0)
  }

  function Take(txs: Records, start: nat, limit: nat): Records {
    if start >= |txs| then [] else if start + limit >= |txs| then txs[start..] else txs[start..start + limit]
  }

  lemma TakenFrom(txs: Records, start: nat, limit: nat)
    ensures forall x :: x in Take(txs, start, limit) ==> x in txs
  {
  }

  function NextCursor(page: Records, limit: nat): Option<string> {
    if |page| == limit && page != [] then Some(MakeCursor(page[|page| - 1])) else None
  }

  method FindStart(txs: Records, key: (I64, string)) returns (position: nat)
    ensures position == StartAfter(txs, key, 0)
  {
    for idx := 0 to |txs|
      invariant StartAfter(txs, key, 0) == StartAfter(txs, key, idx)
    {
      if Names(key, txs[idx]) {
        return idx + 1;
      }
    }
    return 0;
  }

  method Collect(txs: Records, start: nat, limit: nat) returns (page: Records, next: Option<string>)
    ensures page == Take(txs, start, limit) && next == NextCursor(page, limit)
  {
    page := [];
    var last: Option<TransactionRecord> := None;
    var i := start;
    while i < |txs|
      invariant start <= |txs| ==> i <= |txs|
      invariant start <= i && page == (if start >= |txs| then [] else txs[start..i]) && |page| <= limit
      invariant last == if page == [] then None else Some(page[|page| - 1])
    {
      if |page| >= limit {
        break;
      }
      page := page + [txs[i]];
      last := Some(txs[i]);
      i := i + 1;
    }
    next := if |page| == limit && last.Some? then Some(MakeCursor(last.value)) else None;
  }

  /** `get_transaction_history_paginated`. */
  method GetPage(history: Records, a: Address, limit: nat, cursor: Option<string>)
      returns (page: Records, next: Option<string>)
    ensures var txs := SortNewest(OfAccount(history, a));
            page == Take(txs, Start(txs, cursor), limit) && next == NextCursor(page, limit)
  {
    var txs := SortNewest(OfAccount(history, a));
    var start := 0;
    if cursor.Some? {
      var key := ReadCursor(cursor.value);
      if key.Some? {
        start := FindStart(txs, key.value);
      }
    }
    page, next := Collect(txs, start, limit);
  }
}
