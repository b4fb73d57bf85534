/** The listing shown on the index page: one record per stored file, ordered
    by date string, newest first. The ordering step is Python's
    `list.sort(key=date, reverse=True)`, which is stable: records with equal
    dates keep the order in which the directory listing produced them. */
module Listing {
  import opened Text

  /** One entry of the listing: file name, size in bytes, and the creation
      time formatted as `%Y-%m-%d %H:%M`, compared as a plain string. */
  datatype Record = Record(name: string, size: nat, date: string)

  /** Every later record's date is at most every earlier record's date. */
  predicate NewestFirst(s: seq<Record>)
  {
    forall i, j :: 0 <= i < j < |s| ==> StrLe(s[j].date, s[i].date)
  }

  /** The records of `s` that carry date `d`, in the order of `s`. */
  function WithDate(s: seq<Record>, d: string): (r: seq<Record>)
  {
    if s == [] then [] else (if s[0].date == d then [s[0]] else []) + WithDate(s[1..], d)
  }

  lemma WithDateCons(a: Record, s: seq<Record>, d: string)
    ensures WithDate([a] + s, d) == (if a.date == d then [a] else []) + WithDate(s, d)
  {
    assert ([a] + s)[1..] == s;
  }

  /** Places `x` in front of the first record of `t` whose date is not
      newer than its own. */
  function Insert(x: Record, t: seq<Record>): (r: seq<Record>)
    ensures multiset(r) == multiset(t) + multiset{x}
  {
    if t == [] || StrLe(t[0].date, x.date) then [x] + t
    else
      assert t == [t[0]] + t[1..];
      [t[0]] + Insert(x, t[1..])
  }

  /** The listing order produced by `files.sort(key=date, reverse=True)`. */
  function SortNewestFirst(s: seq<Record>): (r: seq<Record>)
    ensures multiset(r) == multiset(s)
  {
    if s == [] then []
    else
      assert s == [s[0]] + s[1..];
      Insert(s[0], SortNewestFirst(s[1..]))
  }

  lemma {:induction false} InsertNewestFirst(x: Record, t: seq<Record>)
    requires NewestFirst(t)
    ensures NewestFirst(Insert(x, t))
  {
    if t == [] {
    } else if StrLe(t[0].date, x.date) {
      forall j | 0 <= j < |t|
        ensures StrLe(t[j].date, x.date)
      {
        if j > 0 {
          StrLeTransitive(t[j].date, t[0].date, x.date);
        }
      }
    } else {
      var rest := Insert(x, t[1..]);
      InsertNewestFirst(x, t[1..]);
      StrLeTotal(t[0].date, x.date);
      forall j | 0 <= j < |rest|
        ensures StrLe(rest[j].date, t[0].date)
      {
        assert rest[j] in multiset(rest);
        if rest[j] != x {
          assert rest[j] in multiset(t[1..]);
          var k :| 0 <= k < |t[1..]| && t[1..][k] == rest[j];
          assert t[k + 1] == rest[j];
        }
      }
    }
  }

  /** The sorted listing is newest first. */
  lemma {:induction false} SortIsNewestFirst(s: seq<Record>)
    ensures NewestFirst(SortNewestFirst(s))
  {
    if s != [] {
      SortIsNewestFirst(s[1..]);
      InsertNewestFirst(s[0], SortNewestFirst(s[1..]));
    }
  }

  lemma {:induction false} InsertStable(x: Record, t: seq<Record>, d: string)
    ensures WithDate(Insert(x, t), d) == WithDate([x] + t, d)
  {
    if t != [] && !StrLe(t[0].date, x.date) {
      StrLeReflexive(x.date);
      var rest := Insert(x, t[1..]);
      var head := if t[0].date == d then [t[0]] else [];
      var mine := if x.date == d then [x] else [];
      assert head + mine == mine + head by {
        assert head == [] || mine == [];
      }
      calc {
        WithDate(Insert(x, t), d);
      == { WithDateCons(t[0], rest, d); }
        head + WithDate(rest, d);
      == { InsertStable(x, t[1..], d); WithDateCons(x, t[1..], d); }
        head + (mine + WithDate(t[1..], d));
      ==
        mine + (head + WithDate(t[1..], d));
      == { assert t == [t[0]] + t[1..]; WithDateCons(t[0], t[1..], d); }
        mine + WithDate(t, d);
      == { WithDateCons(x, t, d); }
        WithDate([x] + t, d);
      }
    }
  }

  /** The sort is stable: for every date, the records carrying it appear in
      the same order as in the input. */
  lemma {:induction false} SortIsStable(s: seq<Record>, d: string)
    ensures WithDate(SortNewestFirst(s), d) == WithDate(s, d)
  {
    if s != [] {
      var sorted := SortNewestFirst(s[1..]);
      SortIsStable(s[1..], d);
      InsertStable(s[0], sorted, d);
      WithDateCons(s[0], sorted, d);
      WithDateCons(s[0], s[1..], d);
      assert s == [s[0]] + s[1..];
    }
  }
}
