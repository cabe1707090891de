/** Following cursors to the end of a history, while records may be appended between the calls. */
module PagedWalk {
  import opened Common
  import opened Ledger
  import opened Paging

  function Key(x: TransactionRecord): (int, string) {
    (x.Millis(), x.hash)
  }

  /** What the cursors need: distinct (millisecond, hash) keys and hashes without a colon. */
  ghost predicate Keyed(s: Records) {
    && (forall i :: 0 <= i < |s| ==> GoodRecord(s[i]))
    && (forall i, j :: 0 <= i < j < |s| ==> Key(s[i]) != Key(s[j]))
  }

  lemma InsertKeyed(s: Records, x: TransactionRecord)
    requires Keyed(s) && GoodRecord(x) && forall i :: 0 <= i < |s| ==> Key(s[i]) != Key(x)
    ensures Keyed(Insert(s, x))
  {
    var k, q := Slot(s, x), Insert(s, x);
    forall i | 0 <= i < |q| ensures q[i] == if i < k then s[i] else if i == k then x else s[i - 1] {
    }
    hide Slot, Insert, GoodRecord;
  }

  lemma InsertMembers(s: Records, x: TransactionRecord)
    ensures forall y :: y in Insert(s, x) <==> y in s || y == x
  {
    var k := Slot(s, x);
    assert s == s[..k] + s[k..];
  }

  lemma {:induction false} SortKeyed(s: Records)
    requires Keyed(s)
    ensures Keyed(SortNewest(s)) && forall y :: y in SortNewest(s) <==> y in s
  {
    if s != [] {
      var init, x := s[..|s| - 1], s[|s| - 1];
      SortKeyed(init);
      var r := SortNewest(init);
      hide Insert, GoodRecord, Slot;
      forall i | 0 <= i < |r| ensures Key(r[i]) != Key(x) {
        assert r[i] in init;
      }
      InsertKeyed(r, x);
      InsertMembers(r, x);
      assert s == init + [x];
    }
  }

  lemma {:induction false} StartAfterFinds(txs: Records, key: (I64, string), i: nat, p: nat)
    requires Keyed(txs) && i <= p < |txs| && Key(txs[p]) == key
    ensures StartAfter(txs, key, i) == p + 1
    decreases p - i
  {
    if i < p {
      assert Key(txs[i]) != Key(txs[p]);
      StartAfterFinds(txs, key, i + 1, p);
    }
  }

  /** A cursor made from a listed record leads to the position right behind it. */
  lemma CursorFinds(txs: Records, p: nat)
    requires Keyed(txs) && p < |txs|
    ensures Start(txs, Some(MakeCursor(txs[p]))) == p + 1
  {
    CursorRoundTrip(txs[p]);
    hide GoodRecord, ReadCursor, MakeCursor;
    StartAfterFinds(txs, (txs[p].Millis(), txs[p].hash), 0, p);
  }

  /** The part of a listing that was already there at the start of the walk. */
  ghost function Keep(s: Records, base: Records): Records {
    if s == [] then [] else Keep(s[..|s| - 1], base) + if s[|s| - 1] in base then [s[|s| - 1]] else []
  }

  lemma {:induction false} KeepConcat(a: Records, b: Records, base: Records)
    ensures Keep(a + b, base) == Keep(a, base) + Keep(b, base)
  {
    if b == [] {
      assert a + b == a;
    } else {
      KeepConcat(a, b[..|b| - 1], base);
      assert (a + b)[..|a + b| - 1] == a + b[..|b| - 1];
    }
  }

  lemma {:induction false} KeepAll(s: Records, base: Records)
    requires forall y :: y in s ==> y in base
    ensures Keep(s, base) == s
  {
    if s != [] {
      KeepAll(s[..|s| - 1], base);
      assert s == s[..|s| - 1] + [s[|s| - 1]];
    }
  }

  lemma KeepNew(x: TransactionRecord, base: Records)
    requires x !in base
    ensures Keep([x], base) == []
  {
    assert [x][..0] == [];
  }

  lemma MiddleKept(lo: Records, x: TransactionRecord, hi: Records, base: Records)
    requires Keep([x], base) == []
    ensures Keep(lo + [x] + hi, base) == Keep(lo + hi, base)
  {
    hide Keep;
    KeepConcat(lo + [x], hi, base);
    KeepConcat(lo, [x], base);
    KeepConcat(lo, hi, base);
  }

  /** A newcomer slides in somewhere; behind which record an old position stands does not change. */
  lemma InsertKeepsPosition(s: Records, x: TransactionRecord, base: Records, p: nat) returns (p': nat)
    requires x !in base && p <= |s|
    ensures p' <= |Insert(s, x)| && (p == 0 <==> p' == 0) && (p > 0 ==> Insert(s, x)[p' - 1] == s[p - 1])
    ensures Keep(Insert(s, x)[..p'], base) == Keep(s[..p], base)
    ensures Keep(Insert(s, x), base) == Keep(s, base)
  {
    hide Keep, Slot;
    var k := Slot(s, x);
    KeepNew(x, base);
    MiddleKept(s[..k], x, s[k..], base);
    assert s == s[..k] + s[k..];
    if p <= k {
      p' := p;
      assert Insert(s, x)[..p] == s[..p];
    } else {
      p' := p + 1;
      MiddleKept(s[..k], x, s[k..p], base);
      assert Insert(s, x)[..p + 1] == s[..k] + [x] + s[k..p];
      assert s[..p] == s[..k] + s[k..p];
    }
  }

  lemma {:induction false} GrowthKeepsPosition(listing: Records, added: Records, base: Records, p: nat)
      returns (p': nat)
    requires p <= |listing| && forall y :: y in added ==> y !in base
    ensures var s, s' := SortNewest(listing), SortNewest(listing + added);
            && p' <= |s'| && (p == 0 <==> p' == 0) && (p > 0 ==> s'[p' - 1] == s[p - 1])
            && Keep(s'[..p'], base) == Keep(s[..p], base) && Keep(s', base) == Keep(s, base)
    decreases |added|
  {
    hide Keep, Insert;
    if added == [] {
      assert listing + added == listing;
      p' := p;
    } else {
      var init, x := added[..|added| - 1], added[|added| - 1];
      var mid := GrowthKeepsPosition(listing, init, base, p);
      assert (listing + added)[..|listing + added| - 1] == listing + init;
      p' := InsertKeepsPosition(SortNewest(listing + init), x, base, mid);
    }
  }

  // ----- the walk

  datatype Walk = Walk(listing: Records, emitted: Records, cursor: Option<string>, finished: bool)

  /** One call: the account's records have grown by `added`; a finished walk makes no more calls. */
  ghost function Call(w: Walk, added: Records, limit: nat): Walk {
    if w.finished then w
    else
      var txs := SortNewest(w.listing + added);
      var page := Take(txs, Start(txs, w.cursor), limit);
      Walk(w.listing + added, w.emitted + page, NextCursor(page, limit), NextCursor(page, limit).None?)
  }

  ghost function WalkAll(base: Records, batches: seq<Records>, limit: nat): Walk {
    if batches == [] then Walk(base, [], None, false)
    else Call(WalkAll(base, batches[..|batches| - 1], limit), batches[|batches| - 1], limit)
  }

  ghost function Flatten(batches: seq<Records>): Records {
    if batches == [] then [] else Flatten(batches[..|batches| - 1]) + batches[|batches| - 1]
  }

  /** The walk stands at position `p`: everything old before it has been emitted, once and in order. */
  ghost predicate StandsAt(w: Walk, base: Records, p: nat) {
    var txs := SortNewest(w.listing);
    && p <= |txs| && Keep(w.emitted, base) == Keep(txs[..p], base)
    && Keep(txs, base) == SortNewest(base)
    && (if w.finished then p == |txs| else w.cursor == if p == 0 then None else Some(MakeCursor(txs[p - 1])))
  }

  lemma StartOfNone(txs: Records)
    ensures Start(txs, None) == 0
  {
  }

  /** Where a call resumes: behind the record the cursor names, wherever growth has moved it. */
  lemma CallResumes(w: Walk, added: Records, base: Records, p: nat) returns (q: nat)
    requires StandsAt(w, base, p) && !w.finished
    requires Keyed(w.listing + added) && forall y :: y in added ==> y !in base
    ensures var txs := SortNewest(w.listing + added);
            && q <= |txs| && Start(txs, w.cursor) == q
            && Keep(w.emitted, base) == Keep(txs[..q], base) && Keep(txs, base) == SortNewest(base)
  {
    hide Keep, Start, Keyed, MakeCursor, SortNewest;
    SortKeyed(w.listing + added);
    q := GrowthKeepsPosition(w.listing, added, base, p);
    var txs := SortNewest(w.listing + added);
    if q > 0 {
      CursorFinds(txs, q - 1);
    } else {
      StartOfNone(txs);
    }
  }

  lemma PageAdvances(txs: Records, q: nat, limit: nat, emitted: Records, base: Records)
    requires limit >= 1 && q <= |txs| && Keep(emitted, base) == Keep(txs[..q], base)
    ensures var page := Take(txs, q, limit);
            var p := q + |page|;
            && p <= |txs| && Keep(emitted + page, base) == Keep(txs[..p], base)
            && page == txs[q..p] && |page| == (if q + limit <= |txs| then limit else |txs| - q)
            && NextCursor(page, limit) == if q + limit <= |txs| then Some(MakeCursor(txs[p - 1])) else None
  {
    hide Keep, MakeCursor;
    var page := Take(txs, q, limit);
    assert txs[..q + |page|] == txs[..q] + page;
    KeepConcat(txs[..q], page, base);
    KeepConcat(emitted, page, base);
  }

  lemma PageStands(w: Walk, added: Records, limit: nat, base: Records, q: nat) returns (p': nat)
    requires limit >= 1 && !w.finished && q <= |SortNewest(w.listing + added)|
    requires var txs := SortNewest(w.listing + added);
             && Start(txs, w.cursor) == q && Keep(w.emitted, base) == Keep(txs[..q], base)
             && Keep(txs, base) == SortNewest(base)
    ensures StandsAt(Call(w, added, limit), base, p')
  {
    hide SortNewest, Keep, MakeCursor, Keyed, Start, Take, NextCursor;
    var txs := SortNewest(w.listing + added);
    p' := q + |Take(txs, q, limit)|;
    PageAdvances(txs, q, limit, w.emitted, base);
  }

  lemma CallAdvances(w: Walk, added: Records, limit: nat, base: Records, p: nat) returns (p': nat)
    requires limit >= 1 && StandsAt(w, base, p) && !w.finished
    requires Keyed(w.listing + added) && forall y :: y in added ==> y !in base
    ensures StandsAt(Call(w, added, limit), base, p')
  {
    var q := CallResumes(w, added, base, p);
    p' := PageStands(w, added, limit, base, q);
  }

  lemma KeyedPrefix(a: Records, b: Records)
    requires Keyed(a + b)
    ensures Keyed(a)
  {
    hide GoodRecord;
    forall i | 0 <= i < |a| ensures GoodRecord(a[i]) {
      assert (a + b)[i] == a[i];
    }
    forall i, j | 0 <= i < j < |a| ensures Key(a[i]) != Key(a[j]) {
      assert (a + b)[i] == a[i] && (a + b)[j] == a[j];
    }
  }

  lemma Disjoint(a: Records, b: Records, c: Records)
    requires Keyed(a + b + c)
    ensures forall y :: y in c ==> y !in a
  {
    hide GoodRecord;
    forall i, j | 0 <= i < |a| && 0 <= j < |c| ensures a[i] != c[j] {
      assert (a + b + c)[i] == a[i] && (a + b + c)[|a| + |b| + j] == c[j];
    }
  }

  lemma StandsAtMeans(w: Walk, base: Records, p: nat)
    requires StandsAt(w, base, p)
    ensures Keep(w.emitted, base) <= SortNewest(base)
    ensures w.finished ==> Keep(w.emitted, base) == SortNewest(base)
  {
    hide Keep, SortNewest, MakeCursor;
    var txs := SortNewest(w.listing);
    assert txs == txs[..p] + txs[p..];
    KeepConcat(txs[..p], txs[p..], base);
    if w.finished {
      assert txs[..p] == txs;
    }
  }

  /** Following cursors never skips or repeats a record that was there at the start; at `None` all have come. */
  lemma {:induction false} WalkIsComplete(base: Records, batches: seq<Records>, limit: nat) returns (p: nat)
    requires limit >= 1 && Keyed(base + Flatten(batches))
    ensures StandsAt(WalkAll(base, batches, limit), base, p)
    ensures WalkAll(base, batches, limit).finished || WalkAll(base, batches, limit).listing == base + Flatten(batches)
    ensures Keep(WalkAll(base, batches, limit).emitted, base) <= SortNewest(base)
    ensures WalkAll(base, batches, limit).finished ==>
              Keep(WalkAll(base, batches, limit).emitted, base) == SortNewest(base)
  {
    if batches == [] {
      assert base + [] == base;
      SortKeyed(base);
      KeepAll(SortNewest(base), base);
      p := 0;
    } else {
      var init, added := batches[..|batches| - 1], batches[|batches| - 1];
      var all := base + Flatten(batches);
      assert all == (base + Flatten(init)) + added;
      KeyedPrefix(base + Flatten(init), added);
      p := WalkIsComplete(base, init, limit);
      var w := WalkAll(base, init, limit);
      if !w.finished {
        Disjoint(base, Flatten(init), added);
        p := CallAdvances(w, added, limit, base, p);
      }
    }
    StandsAtMeans(WalkAll(base, batches, limit), base, p);
  }

  ghost function NoNews(calls: nat): seq<Records> {
    seq(calls, _ => [])
  }

  function Reached(calls: nat, limit: nat): nat {
    if calls == 0 then 0 else Reached(calls - 1, limit) + limit
  }

  /** A walk over an unchanging history after `pos` records; past the end it is finished. */
  ghost function QuietState(base: Records, pos: nat): Walk {
    var txs := SortNewest(base);
    if pos > |txs| then Walk(base, txs, None, true)
    else Walk(base, txs[..pos], if pos == 0 then None else Some(MakeCursor(txs[pos - 1])), false)
  }

  lemma QuietResumes(base: Records, pos: nat)
    requires Keyed(base) && pos <= |SortNewest(base)|
    ensures Start(SortNewest(base), QuietState(base, pos).cursor) == pos
  {
    hide SortNewest, Start, Keyed, MakeCursor;
    SortKeyed(base);
    if pos > 0 {
      CursorFinds(SortNewest(base), pos - 1);
    } else {
      StartOfNone(SortNewest(base));
    }
  }

  lemma QuietPage(txs: Records, pos: nat, limit: nat)
    requires limit >= 1 && pos <= |txs|
    ensures txs[..pos] + Take(txs, pos, limit) == if pos + limit <= |txs| then txs[..pos + limit] else txs
  {
  }

  lemma QuietStep(base: Records, pos: nat, limit: nat)
    requires limit >= 1 && Keyed(base)
    ensures Call(QuietState(base, pos), [], limit) == QuietState(base, pos + limit)
  {
    hide SortNewest, MakeCursor, Keyed, Take, NextCursor, Start, Keep;
    var txs := SortNewest(base);
    assert base + [] == base;
    if pos <= |txs| {
      QuietResumes(base, pos);
      PageAdvances(txs, pos, limit, txs[..pos], txs);
      QuietPage(txs, pos, limit);
    }
  }

  /** With nothing appended, calls return the listing page by page; the walk ends on the first short page. */
  lemma {:induction false} QuietWalk(base: Records, calls: nat, limit: nat)
    requires limit >= 1 && Keyed(base)
    ensures WalkAll(base, NoNews(calls), limit) == QuietState(base, Reached(calls, limit))
  {
    hide Call, SortNewest, Keyed;
    if calls == 0 {
      assert SortNewest(base)[..0] == [];
      assert NoNews(0) == [];
    } else {
      QuietWalk(base, calls - 1, limit);
      assert NoNews(calls)[..calls - 1] == NoNews(calls - 1);
      QuietStep(base, Reached(calls - 1, limit), limit);
    }
  }

  /** The account's history after growth is its old history followed by the account's new records. */
  lemma {:induction false} HistoryGrows(history: Records, added: Records, a: Address)
    ensures OfAccount(history + added, a) == OfAccount(history, a) + OfAccount(added, a)
  {
    if added == [] {
      assert history + added == history;
    } else {
      HistoryGrows(history, added[..|added| - 1], a);
      assert (history + added)[..|history + added| - 1] == history + added[..|added| - 1];
    }
  }
}
