/** From committed transactions to a watching client: the history of any run, the changelog it leaves,
    the stream it publishes, and what watchers and mirrors make of that stream. */
module Pipeline {
  import opened Lex
  import opened KvStore
  import opened Txn
  import opened Serial
  import opened Watch

  /** The notifications of a history, transaction after transaction. */
  function Stream(h: seq<Committed>): (ev: seq<Event>) {
    if h == [] then [] else Stream(h[..|h| - 1]) + h[|h| - 1].events
  }

  /** The stream of a serial history accounts for everything its transactions did. */
  lemma {:induction false} StreamAccounts(schema: Schema, s0: Store, h: seq<Committed>)
    requires Valid(s0) && SerialUpTo(schema, s0, h)
    ensures Accounts(s0, Stream(h), After(schema, s0, h))
  {
    if h == [] {
      NothingHappened(s0);
    } else {
      var init := h[..|h| - 1];
      assert SerialUpTo(schema, s0, init) by {
        forall i | 0 <= i < |init| ensures AsIfAlone(schema, s0, init, i) {
          assert AsIfAlone(schema, s0, h, i);
          assert init[..i] == h[..i] && init[..i + 1] == h[..i + 1];
        }
      }
      StreamAccounts(schema, s0, init);
      assert AsIfAlone(schema, s0, h, |h| - 1);
      assert h[..|h| - 1 + 1] == h;
      TxnSound(schema, After(schema, s0, init), h[|h| - 1].txn);
      AccountsCompose(s0, Stream(init), After(schema, s0, init), h[|h| - 1].events, After(schema, s0, h));
    }
  }

  ghost predicate OnePerRevision(ev: seq<Event>) {
    forall i, j :: 0 <= i < j < |ev| ==> ev[i].rev < ev[j].rev
  }

  /** In every run, at every moment, a client that applies the stream of committed transactions to an
      empty copy holds the committed key space exactly: values, versions and revisions. The changelog
      keeps one row per revision, so it is as long as the stream exactly when no range delete hit
      several keys. */
  lemma StreamRebuildsStore(schema: Schema, locked: set<Bytes>, ss: seq<Sys>, i: nat)
    requires IsRun(schema, EmptyStore(locked), ss) && i < |ss|
    ensures Mirror(map[], Stream(ss[i].history)) == ss[i].committed.kvs
    ensures ss[i].committed.log == RowsOf(Stream(ss[i].history))
    ensures |ss[i].committed.log| == |Stream(ss[i].history)| <==> OnePerRevision(Stream(ss[i].history))
  {
    Serializable(schema, EmptyStore(locked), ss, i);
    StreamAccounts(schema, EmptyStore(locked), ss[i].history);
    RowsLoseEvents(Stream(ss[i].history));
    assert [] + RowsOf(Stream(ss[i].history)) == RowsOf(Stream(ss[i].history));
  }

  lemma {:induction false} StrictlyThrough(ev: seq<Event>, n: nat, i: nat)
    requires OnePerRevision(ev) && |ev| == n && i < n
    requires forall j :: 0 <= j < n ==> 0 < ev[j].rev <= n
    ensures ev[i].rev == i + 1
  {
    RevAtLeast(ev, i);
    RevAtMost(ev, n, i);
  }

  lemma {:induction false} RevAtLeast(ev: seq<Event>, i: nat)
    requires OnePerRevision(ev) && i < |ev| && forall j :: 0 <= j < |ev| ==> 0 < ev[j].rev
    ensures ev[i].rev >= i + 1
    decreases i
  {
    if i > 0 {
      RevAtLeast(ev, i - 1);
    }
  }

  lemma {:induction false} RevAtMost(ev: seq<Event>, n: nat, i: nat)
    requires OnePerRevision(ev) && |ev| == n && i < n && forall j :: 0 <= j < n ==> ev[j].rev <= n
    ensures ev[i].rev <= i + 1
    decreases n - i
  {
    if i + 1 < n {
      RevAtMost(ev, n, i + 1);
    }
  }

  /** Without a range delete that hit several keys, the stream is the changelog, row by row. */
  lemma StreamIsLog(schema: Schema, locked: set<Bytes>, ss: seq<Sys>, i: nat)
    requires IsRun(schema, EmptyStore(locked), ss) && i < |ss|
    requires OnePerRevision(Stream(ss[i].history))
    requires forall e :: e in Stream(ss[i].history) ==> EventName(e.name)
    ensures Publishes(Stream(ss[i].history), ss[i].committed.log)
  {
    var s0 := EmptyStore(locked);
    StreamRebuildsStore(schema, locked, ss, i);
    Serializable(schema, s0, ss, i);
    StreamAccounts(schema, s0, ss[i].history);
    StrictStreamIsRows(Stream(ss[i].history));
  }

  lemma StrictStreamIsRows(all: seq<Event>)
    requires OnePerRevision(all) && InOrder(0, all, |RowsOf(all)|) && forall e :: e in all ==> EventName(e.name)
    ensures Publishes(all, RowsOf(all))
  {
    RowsAreEvents(all);
    forall j | 0 <= j < |all|
      ensures all[j].rev == j + 1 && EventName(all[j].name)
    {
      StrictlyThrough(all, |all|, j);
      assert all[j] in all;
    }
  }

  // ---------------------------------------------------------------- publication order

  /** Transactions publish in turn: nobody is overtaken by a later commit. */
  predicate InTurn(published: seq<(nat, Event)>) {
    forall i, j :: 0 <= i < j < |published| ==> published[i].0 <= published[j].0
  }

  ghost predicate AllSent(s: Sys) {
    forall i :: 0 <= i < |s.unsent| ==> s.unsent[i] == []
  }

  function Sent(published: seq<(nat, Event)>): (ev: seq<Event>) {
    seq(|published|, i requires 0 <= i < |published| => published[i].1)
  }

  function Concat(shares: seq<seq<Event>>): (ev: seq<Event>) {
    if shares == [] then [] else Concat(shares[..|shares| - 1]) + shares[|shares| - 1]
  }

  lemma {:induction false} ConcatGrows(shares: seq<seq<Event>>, k: nat, e: Event)
    requires k < |shares| && forall j :: k < j < |shares| ==> shares[j] == []
    ensures Concat(shares[k := shares[k] + [e]]) == Concat(shares) + [e]
    decreases |shares|
  {
    var init, last := shares[..|shares| - 1], shares[|shares| - 1];
    var grown := shares[k := shares[k] + [e]];
    if k == |shares| - 1 {
      assert grown[..|shares| - 1] == init;
      assert Concat(init) + (last + [e]) == Concat(init) + last + [e];
    } else {
      ConcatGrows(init, k, e);
      assert grown[..|shares| - 1] == init[k := init[k] + [e]];
      assert Concat(init) + [e] + [] == Concat(init) + [] + [e];
    }
  }

  lemma {:induction false} ConcatNothing(shares: seq<seq<Event>>)
    requires forall j :: 0 <= j < |shares| ==> shares[j] == []
    ensures Concat(shares) == []
  {
    if shares != [] {
      ConcatNothing(shares[..|shares| - 1]);
    }
  }

  /** What each of n transactions has sent. */
  function Shares(published: seq<(nat, Event)>, n: nat): (shares: seq<seq<Event>>)
    ensures |shares| == n && forall j :: 0 <= j < n ==> shares[j] == SentBy(published, j)
  {
    seq(n, j requires 0 <= j < n => SentBy(published, j))
  }

  lemma SharesGrow(p: seq<(nat, Event)>, k: nat, e: Event, n: nat)
    requires k < n
    ensures Shares(p + [(k, e)], n) == Shares(p, n)[k := Shares(p, n)[k] + [e]]
  {
    forall j | 0 <= j < n
      ensures SentBy(p + [(k, e)], j) == if j == k then SentBy(p, j) + [e] else SentBy(p, j)
    {
      SentByOneMore(p, k, e, j);
    }
  }

  /** Published in turn, the stream is its transactions' shares one after another. */
  lemma {:induction false} InTurnIsConcat(p: seq<(nat, Event)>, n: nat)
    requires InTurn(p) && forall i :: 0 <= i < |p| ==> p[i].0 < n
    ensures Sent(p) == Concat(Shares(p, n))
    decreases |p|
  {
    if p == [] {
      ConcatNothing(Shares(p, n));
    } else {
      var last := p[|p| - 1];
      var init := p[..|p| - 1];
      InTurnIsConcat(init, n);
      InTurnOneMore(init, last.0, last.1, n);
      assert p == init + [(last.0, last.1)];
    }
  }

  lemma InTurnOneMore(p: seq<(nat, Event)>, k: nat, e: Event, n: nat)
    requires Sent(p) == Concat(Shares(p, n)) && k < n && forall i :: 0 <= i < |p| ==> p[i].0 <= k
    ensures Sent(p + [(k, e)]) == Concat(Shares(p + [(k, e)], n))
  {
    SharesGrow(p, k, e, n);
    var shares := Shares(p, n);
    forall j | k < j < n
      ensures shares[j] == []
    {
      NothingSentBy(p, j);
    }
    ConcatGrows(shares, k, e);
    SentGrows(p, k, e);
  }

  lemma SentGrows(p: seq<(nat, Event)>, k: nat, e: Event)
    ensures Sent(p + [(k, e)]) == Sent(p) + [e]
  {
  }

  lemma {:induction false} ConcatIsStream(shares: seq<seq<Event>>, h: seq<Committed>)
    requires |shares| == |h| && forall i :: 0 <= i < |h| ==> shares[i] == h[i].events
    ensures Concat(shares) == Stream(h)
    decreases |h|
  {
    if h != [] {
      ConcatIsStream(shares[..|h| - 1], h[..|h| - 1]);
    }
  }

  lemma InTurnIsStream(schema: Schema, s0: Store, ss: seq<Sys>, i: nat)
    requires IsRun(schema, s0, ss) && i < |ss|
    requires InTurn(ss[i].published) && AllSent(ss[i])
    ensures Sent(ss[i].published) == Stream(ss[i].history)
  {
    var s := ss[i];
    Serializable(schema, s0, ss, i);
    forall j | 0 <= j < |s.history|
      ensures SentBy(s.published, j) == s.history[j].events
    {
      assert SentBy(s.published, j) + s.unsent[j] == s.history[j].events;
    }
    InTurnIsConcat(s.published, |s.history|);
    ConcatIsStream(Shares(s.published, |s.history|), s.history);
  }

  lemma {:induction false} SentByHas(p: seq<(nat, Event)>, i: nat)
    requires i < |p|
    ensures p[i].1 in SentBy(p, p[i].0)
  {
    if i < |p| - 1 {
      SentByHas(p[..|p| - 1], i);
    }
  }

  lemma {:induction false} RevisionsClimb(chain: seq<Store>, h: seq<Committed>, a: nat, b: nat)
    requires |chain| == |h| + 1 && a <= b <= |h|
    requires forall m :: 0 <= m < |h| ==> LeadsTo(chain[m], h[m].events, chain[m + 1])
    ensures chain[a].rev <= chain[b].rev
    decreases b - a
  {
    if a < b {
      assert LeadsTo(chain[a], h[a].events, chain[a + 1]);
      RevisionsClimb(chain, h, a + 1, b);
    }
  }

  /** A notification of a later transaction has the higher revision. */
  lemma LaterIsHigher(chain: seq<Store>, h: seq<Committed>, a: nat, b: nat, x: Event, y: Event)
    requires |chain| == |h| + 1 && a < b < |h| && x in h[a].events && y in h[b].events
    requires forall m :: 0 <= m < |h| ==> LeadsTo(chain[m], h[m].events, chain[m + 1])
    ensures x.rev < y.rev
  {
    assert LeadsTo(chain[a], h[a].events, chain[a + 1]) && LeadsTo(chain[b], h[b].events, chain[b + 1]);
    RevisionsClimb(chain, h, a + 1, b);
  }

  /** When every committed transaction has published all it owes, what subscribers were given is the stream
      of the history if and only if they published in turn. */
  lemma PublishedIsStream(schema: Schema, s0: Store, ss: seq<Sys>, i: nat)
    requires Valid(s0) && IsRun(schema, s0, ss) && i < |ss| && AllSent(ss[i])
    ensures Sent(ss[i].published) == Stream(ss[i].history) <==> InTurn(ss[i].published)
  {
    var p, h := ss[i].published, ss[i].history;
    if InTurn(p) {
      InTurnIsStream(schema, s0, ss, i);
    } else {
      var a, b :| 0 <= a < b < |p| && p[b].0 < p[a].0;
      Serializable(schema, s0, ss, i);
      OutOfTurn(schema, s0, ss[i], a, b);
    }
  }

  lemma OutOfTurn(schema: Schema, s0: Store, s: Sys, a: nat, b: nat)
    requires Valid(s0) && Inv(schema, s0, s) && a < b < |s.published| && s.published[b].0 < s.published[a].0
    ensures Sent(s.published) != Stream(s.history)
  {
    var p, h := s.published, s.history;
    PublishedFrom(s, a);
    PublishedFrom(s, b);
    ChainLinks(schema, s0, h);
    LaterIsHigher(Chain(schema, s0, h), h, p[b].0, p[a].0, p[b].1, p[a].1);
    StreamAccounts(schema, s0, h);
    assert Sent(p)[b].rev < Sent(p)[a].rev;
  }

  lemma PublishedFrom(s: Sys, i: nat)
    requires Mail(s.history, s.unsent, s.published) && i < |s.published|
    ensures s.published[i].0 < |s.history| && s.published[i].1 in s.history[s.published[i].0].events
  {
    var id := s.published[i].0;
    SentByHas(s.published, i);
    assert SentBy(s.published, id) + s.unsent[id] == s.history[id].events;
  }

  /** Nothing makes them publish in turn: with two notifications outstanding the later transaction may go
      first, and a live watcher that wants both then never sends the earlier one. */
  lemma OvertakenIsLost(schema: Schema, s0: Store, ss: seq<Sys>, i: nat, j: nat, w: Watcher, lastSent: nat)
    returns (s1: Sys, s2: Sys)
    requires IsRun(schema, s0, ss)
    requires var s := ss[|ss| - 1]; i < j < |s.unsent| && s.unsent[i] != [] && s.unsent[j] != []
    requires var s := ss[|ss| - 1]; var early, late := s.unsent[i][0], s.unsent[j][0];
             0 < early.rev < late.rev && lastSent < late.rev && MatchesKey(w, early.name) && MatchesKey(w, late.name)
    ensures IsRun(schema, s0, ss + [s1, s2])
    ensures var s := ss[|ss| - 1]; var early, late := s.unsent[i][0], s.unsent[j][0];
            && s2.published == s.published + [(j, late), (i, early)]
            && Forward(w, lastSent, [late, early]) == [EventMessage(late)]
  {
    var s := ss[|ss| - 1];
    var early, late := s.unsent[i][0], s.unsent[j][0];
    s1 := s.(unsent := s.unsent[j := s.unsent[j][1..]], published := s.published + [(j, late)]);
    s2 := s1.(unsent := s1.unsent[i := s1.unsent[i][1..]], published := s1.published + [(i, early)]);
    assert Next(schema, s, Publish(j), s1) && Next(schema, s1, Publish(i), s2);
    assert Steps(schema, s, s1) && Steps(schema, s1, s2);
    var longer := ss + [s1, s2];
    forall m | 0 < m < |longer|
      ensures Steps(schema, longer[m - 1], longer[m])
    {
      assert m < |ss| ==> Steps(schema, ss[m - 1], ss[m]);
    }
    assert [late, early][1..] == [early] && [early][1..] == [];
    assert Forward(w, late.rev, [early]) == [];
  }
}
