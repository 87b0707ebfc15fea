/** The submission normaliser: turns the reward-pool contract's transaction list into
    the time-ordered submission list shown on the verification page
    (`getRewardSubmissions` and `getODAONameByAddress`). */
module Submissions {
  import opened Common
  import opened Seqs
  import opened Strings

  /** An entry of the bundled oDAO roster. */
  datatype Member = Member(id: string, address: string, url: string)

  /** One row of the transaction-history listing. `timeStamp` is the integer its
      decimal string spells (what `parseInt` reads). */
  datatype Tx = Tx(isError: string, receiptStatus: string, timeStamp: int, functionName: string,
                   from: string, hash: string, input: string)

  /** A submission before annotation: `{ address, timestamp, hash, merkleRoot }`. */
  datatype Record = Record(address: string, timestamp: int, hash: string, merkleRoot: string)

  /** A submission as the page keeps it: the record plus the member name and the consensus flag. */
  datatype Submission = Submission(address: string, timestamp: int, hash: string, merkleRoot: string,
                                   id: string, valid: bool)

  /** The outcome of one refresh. `Skipped`: the roster is empty, so nothing is fetched;
      `Aborted`: a call-data decode threw, so the whole refresh stops and the page keeps
      its previous list; `Loaded`: the new list replaces the old one. */
  datatype Refresh = Skipped | Aborted | Loaded(subs: seq<Submission>)

  const UnknownMember: string := "Unknown ODAO"
  const SubmitFunction: string := "submitRewardSnapshot(tuple _submission)"
  /** The rolling window: fourteen days, in seconds. */
  const WindowSeconds: int := 3600 * 24 * 14

  /** `getODAONameByAddress`: the id of the first roster entry whose lower-cased address
      equals the lower-cased `address`, or "Unknown ODAO" when there is none. */
  function NameByAddress(members: seq<Member>, address: string): (r: string)
    ensures (forall i :: 0 <= i < |members| ==> Lower(members[i].address) != Lower(address)) ==> r == UnknownMember
    ensures forall i :: 0 <= i < |members| && Lower(members[i].address) == Lower(address) &&
                        (forall j :: 0 <= j < i ==> Lower(members[j].address) != Lower(address))
                        ==> r == members[i].id
  {
    if |members| == 0 then UnknownMember
    else if Lower(members[0].address) == Lower(address) then members[0].id
    else
      var r := NameByAddress(members[1..], address);
      assert forall i :: 1 <= i < |members| ==> members[i] == members[1..][i - 1];
      r
  }

  /** The lookup ignores the case of the address. */
  lemma {:induction false} NameIgnoresCase(members: seq<Member>, a: string, b: string)
    requires Lower(a) == Lower(b)
    ensures NameByAddress(members, a) == NameByAddress(members, b)
  {
    if |members| > 0 {
      NameIgnoresCase(members[1..], a, b);
    }
  }

  /** The timestamp is strictly newer than fourteen days before `nowMs`; `nowMs` is
      `new Date().valueOf()`, and the source compares against its value in seconds. */
  predicate InWindow(timeStamp: int, nowMs: int)
  {
    timeStamp as real > nowMs as real / 1000.0 - WindowSeconds as real
  }

  /** The four filters, in the order the source applies them. */
  predicate Kept(t: Tx, nowMs: int)
  {
    && t.isError == "0"
    && t.receiptStatus == "1"
    && InWindow(t.timeStamp, nowMs)
    && t.functionName == SubmitFunction
  }

  /** The transactions that pass the four filters, in listing order. */
  function Window(txs: seq<Tx>, nowMs: int): (w: seq<Tx>)
    ensures forall i :: 0 <= i < |w| ==> Kept(w[i], nowMs)
    ensures forall t :: t in w <==> t in txs && Kept(t, nowMs)
    ensures IsSubsequence(w, txs)
    ensures forall t :: multiset(w)[t] == if Kept(t, nowMs) then multiset(txs)[t] else 0
  {
    FilterCounts(txs, t => Kept(t, nowMs));
    Filter(txs, t => Kept(t, nowMs))
  }

  /** `rec` is what the source's first `map` builds from `t`. */
  predicate Derives(t: Tx, rec: Record, decode: string -> Option<string>)
  {
    && rec.address == t.from
    && rec.timestamp == t.timeStamp
    && rec.hash == t.hash
    && decode(t.input) == Some(rec.merkleRoot)
  }

  /** Decodes every transaction's call data; one failure fails the whole list,
      because the source's `map` has no `try`. */
  function DecodeAll(txs: seq<Tx>, decode: string -> Option<string>): (r: Option<seq<Record>>)
    ensures r.None? <==> exists i :: 0 <= i < |txs| && decode(txs[i].input).None?
    ensures r.Some? ==> |r.value| == |txs| && forall i :: 0 <= i < |txs| ==> Derives(txs[i], r.value[i], decode)
  {
    if |txs| == 0 then Some([])
    else
      var t := txs[0];
      match decode(t.input)
      case None => None
      case Some(root) =>
        var rest := DecodeAll(txs[1..], decode);
        if rest.None? then
          assert exists i :: 1 <= i < |txs| && decode(txs[i].input).None?;
          None
        else
          Some([Record(t.from, t.timeStamp, t.hash, root)] + rest.value)
  }

  function Roots(rs: seq<Record>): (roots: seq<string>)
    ensures |roots| == |rs|
    ensures forall i :: 0 <= i < |rs| ==> roots[i] == rs[i].merkleRoot
  {
    if |rs| == 0 then [] else [rs[0].merkleRoot] + Roots(rs[1..])
  }

  predicate SortedByTime(rs: seq<Record>)
  {
    forall i, j :: 0 <= i < j < |rs| ==> rs[i].timestamp <= rs[j].timestamp
  }

  /** Puts `x` in front of the first record that is not older than it. */
  function Insert(x: Record, rs: seq<Record>): (r: seq<Record>)
    requires SortedByTime(rs)
    ensures SortedByTime(r)
    ensures multiset(r) == multiset(rs) + multiset{x}
    ensures |r| == |rs| + 1 && (r[0] == x || (|rs| > 0 && r[0] == rs[0]))
  {
    if |rs| == 0 || x.timestamp <= rs[0].timestamp then
      [x] + rs
    else
      var tail := Insert(x, rs[1..]);
      assert rs == [rs[0]] + rs[1..];
      var r := [rs[0]] + tail;
      assert forall j :: 0 <= j < |tail| ==> rs[0].timestamp <= tail[j].timestamp by {
        assert tail[0] == x || tail[0] == rs[1];
      }
      r
  }

  lemma {:induction false} InsertRoots(x: Record, rs: seq<Record>)
    requires SortedByTime(rs)
    ensures multiset(Roots(Insert(x, rs))) == multiset(Roots(rs)) + multiset{x.merkleRoot}
  {
    if |rs| > 0 && x.timestamp > rs[0].timestamp {
      InsertRoots(x, rs[1..]);
    }
  }

  /** The timestamp sort. The source's comparator never answers "equal", so how it
      orders records with the same timestamp depends on the JavaScript engine; this
      model keeps them in listing order, and its contract promises only a permutation
      with non-decreasing timestamps. */
  function SortByTime(rs: seq<Record>): (r: seq<Record>)
    ensures SortedByTime(r)
    ensures multiset(r) == multiset(rs)
  {
    if |rs| == 0 then []
    else
      assert rs == [rs[0]] + rs[1..];
      Insert(rs[0], SortByTime(rs[1..]))
  }

  /** Sorting keeps the count of every merkle root. */
  lemma {:induction false} SortRoots(rs: seq<Record>)
    ensures multiset(Roots(SortByTime(rs))) == multiset(Roots(rs))
  {
    if |rs| > 0 {
      SortRoots(rs[1..]);
      InsertRoots(rs[0], SortByTime(rs[1..]));
    }
  }

  function Unannotated(s: Submission): Record
  {
    Record(s.address, s.timestamp, s.hash, s.merkleRoot)
  }

  function Records(subs: seq<Submission>): (rs: seq<Record>)
    ensures |rs| == |subs|
    ensures forall i :: 0 <= i < |subs| ==> rs[i] == Unannotated(subs[i])
  {
    seq(|subs|, i requires 0 <= i < |subs| => Unannotated(subs[i]))
  }

  /** The merkle roots of a submission list, in order. */
  function RootsOf(subs: seq<Submission>): seq<string>
  {
    Roots(Records(subs))
  }

  /** How many submissions of the list carry `root`. */
  function RootCount(subs: seq<Submission>, root: string): nat
  {
    multiset(RootsOf(subs))[root]
  }

  /** Every submission is flagged valid exactly when its root occurs at least
      `ConsensusRequired` times in the same list. */
  predicate ValidityMatchesCounts(subs: seq<Submission>)
  {
    forall i :: 0 <= i < |subs| ==> (subs[i].valid <==> RootCount(subs, subs[i].merkleRoot) >= ConsensusRequired)
  }

  /** The second `map`: adds the member name and the consensus flag read from `counts`. */
  function Annotate(rs: seq<Record>, members: seq<Member>, counts: map<string, nat>): (subs: seq<Submission>)
    requires forall i :: 0 <= i < |rs| ==> rs[i].merkleRoot in counts
    ensures Records(subs) == rs
    ensures forall i :: 0 <= i < |subs| ==> subs[i].id == NameByAddress(members, subs[i].address)
    ensures forall i :: 0 <= i < |subs| ==> (subs[i].valid <==> counts[rs[i].merkleRoot] >= ConsensusRequired)
  {
    var subs := seq(|rs|, i requires 0 <= i < |rs| =>
      var x := rs[i];
      Submission(x.address, x.timestamp, x.hash, x.merkleRoot,
                 NameByAddress(members, x.address), counts[x.merkleRoot] >= ConsensusRequired));
    assert Records(subs) == rs;
    subs
  }

  /** The count the source reads for each sorted record is the count of its root in the sorted list. */
  lemma SortedCounts(recs: seq<Record>)
    ensures forall i :: 0 <= i < |SortByTime(recs)| ==> SortByTime(recs)[i].merkleRoot in Tally(Roots(recs))
    ensures forall i :: 0 <= i < |SortByTime(recs)| ==>
      Tally(Roots(recs))[SortByTime(recs)[i].merkleRoot] == multiset(Roots(SortByTime(recs)))[SortByTime(recs)[i].merkleRoot]
  {
    var sorted, counts := SortByTime(recs), Tally(Roots(recs));
    SortRoots(recs);
    forall i | 0 <= i < |sorted|
      ensures sorted[i].merkleRoot in counts
      ensures counts[sorted[i].merkleRoot] == multiset(Roots(sorted))[sorted[i].merkleRoot]
    {
      var x := sorted[i].merkleRoot;
      assert Roots(sorted)[i] == x;
      assert x in multiset(Roots(recs));
    }
  }

  /** Flags read from a map holding each root's count in the list itself match the counts. */
  lemma AnnotatedValidity(sorted: seq<Record>, counts: map<string, nat>, members: seq<Member>)
    requires forall i :: 0 <= i < |sorted| ==> sorted[i].merkleRoot in counts
    requires forall i :: 0 <= i < |sorted| ==> counts[sorted[i].merkleRoot] == multiset(Roots(sorted))[sorted[i].merkleRoot]
    ensures ValidityMatchesCounts(Annotate(sorted, members, counts))
  {
    var subs := Annotate(sorted, members, counts);
    assert RootsOf(subs) == Roots(sorted);
  }

  /** Counts the roots, sorts by time and annotates: the part of the pipeline after
      decoding. */
  function Normalise(recs: seq<Record>, members: seq<Member>): (subs: seq<Submission>)
    ensures multiset(Records(subs)) == multiset(recs)
    ensures SortedByTime(Records(subs))
    ensures ValidityMatchesCounts(subs)
    ensures forall i :: 0 <= i < |subs| ==> subs[i].id == NameByAddress(members, subs[i].address)
  {
    var sorted := SortByTime(recs);
    var counts := Tally(Roots(recs));
    SortedCounts(recs);
    AnnotatedValidity(sorted, counts, members);
    Annotate(sorted, members, counts)
  }

  /** A refresh aborts exactly when some transaction that passes the filters fails to decode. */
  lemma WindowDecodeFails(txs: seq<Tx>, nowMs: int, decode: string -> Option<string>)
    ensures DecodeAll(Window(txs, nowMs), decode).None? <==>
            exists t :: t in txs && Kept(t, nowMs) && decode(t.input).None?
  {
    var w := Window(txs, nowMs);
    if exists t :: t in txs && Kept(t, nowMs) && decode(t.input).None? {
      var t :| t in txs && Kept(t, nowMs) && decode(t.input).None?;
      var i :| 0 <= i < |w| && w[i] == t;
    }
  }

  /** `getRewardSubmissions` after the fetch: filter, decode, count roots, sort by
      time, then annotate each record with its member name and consensus flag. */
  function RewardSubmissions(members: seq<Member>, txs: seq<Tx>, nowMs: int,
                             decode: string -> Option<string>): (r: Refresh)
    ensures r.Skipped? <==> |members| == 0
    ensures r.Aborted? <==> |members| > 0 && exists t :: t in txs && Kept(t, nowMs) && decode(t.input).None?
    ensures r.Loaded? ==> DecodeAll(Window(txs, nowMs), decode).Some?
    ensures r.Loaded? ==> multiset(Records(r.subs)) == multiset(DecodeAll(Window(txs, nowMs), decode).value)
    ensures r.Loaded? ==> SortedByTime(Records(r.subs))
    ensures r.Loaded? ==> ValidityMatchesCounts(r.subs)
    ensures r.Loaded? ==> forall i :: 0 <= i < |r.subs| ==> r.subs[i].id == NameByAddress(members, r.subs[i].address)
  {
    WindowDecodeFails(txs, nowMs, decode);
    if |members| == 0 then Skipped
    else
      var decoded := DecodeAll(Window(txs, nowMs), decode);
      if decoded.None? then Aborted else Loaded(Normalise(decoded.value, members))
  }

  /** Every loaded submission comes from a transaction that passed all four filters. */
  lemma LoadedFromKept(members: seq<Member>, txs: seq<Tx>, nowMs: int, decode: string -> Option<string>)
    requires RewardSubmissions(members, txs, nowMs, decode).Loaded?
    ensures var subs := RewardSubmissions(members, txs, nowMs, decode).subs;
      forall k :: 0 <= k < |subs| ==>
        exists t :: t in txs && Kept(t, nowMs) && Derives(t, Unannotated(subs[k]), decode)
  {
    var subs := RewardSubmissions(members, txs, nowMs, decode).subs;
    var w := Window(txs, nowMs);
    var recs := DecodeAll(w, decode).value;
    forall k | 0 <= k < |subs|
      ensures exists t :: t in txs && Kept(t, nowMs) && Derives(t, Unannotated(subs[k]), decode)
    {
      var rec := Records(subs)[k];
      assert rec in multiset(recs);
      var i :| 0 <= i < |recs| && recs[i] == rec;
      assert w[i] in txs && Kept(w[i], nowMs) && Derives(w[i], rec, decode);
    }
  }

  /** The page keeps its previous list unless the refresh loaded a new one. */
  function AfterRefresh(current: seq<Submission>, r: Refresh): (next: seq<Submission>)
    ensures !r.Loaded? ==> next == current
    ensures r.Loaded? ==> next == r.subs
  {
    if r.Loaded? then r.subs else current
  }

  /** What one press of the refresh button fetches: the roster, the transaction
      listing and the clock at that moment. */
  datatype Fetch = Fetch(members: seq<Member>, txs: seq<Tx>, nowMs: int)

  /** The page's submission list after a run of refreshes, starting from the
      initial empty list. */
  function PageList(fetches: seq<Fetch>, decode: string -> Option<string>): seq<Submission>
  {
    if |fetches| == 0 then []
    else
      var f := fetches[|fetches| - 1];
      AfterRefresh(PageList(fetches[..|fetches| - 1], decode), RewardSubmissions(f.members, f.txs, f.nowMs, decode))
  }

  /** Every list the page can hold is sorted by time and flagged consistently with its
      own root counts, whichever refreshes loaded, aborted or were skipped. */
  lemma {:induction false} PageListConsistent(fetches: seq<Fetch>, decode: string -> Option<string>)
    ensures SortedByTime(Records(PageList(fetches, decode)))
    ensures ValidityMatchesCounts(PageList(fetches, decode))
  {
    if |fetches| > 0 {
      PageListConsistent(fetches[..|fetches| - 1], decode);
    }
  }
}
