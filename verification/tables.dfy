/**
  Table-set algebra of the mydumper driver: the configured whitelist, skip
  and structure-only lists, the merged skip list, and the order-preserving
  difference (`array_diff`) that yields the default `--tables-list`.
 */
module Tables {

  /**
    The expanded table selection handed to `dumpCmd`: an explicit
    whitelist, tables to skip entirely, and tables whose structure only is
    dumped. PHP arrays with numeric keys, hence ordered lists.
   */
  datatype Selection = Selection(tables: seq<string>, skip: seq<string>, structure: seq<string>)

  /** `array_merge($structure_tables, $skip_tables)`: structure tables first, then the skip list. */
  function EffectiveSkip(sel: Selection): (r: seq<string>)
    ensures forall t :: t in r <==> t in sel.structure || t in sel.skip
    ensures |r| == |sel.structure| + |sel.skip|
  {
    sel.structure + sel.skip
  }

  /** `a` can be obtained from `b` by deleting elements, keeping the order of the rest. */
  predicate IsSubsequence<T(==)>(a: seq<T>, b: seq<T>)
    decreases |b|
  {
    |a| == 0 || (|b| > 0 && ((a[0] == b[0] && IsSubsequence(a[1..], b[1..])) || IsSubsequence(a, b[1..])))
  }

  /**
    `array_diff($all, $drop)` read as a list: every element of `all` that
    does not occur in `drop`, in the original order and with its repetitions.
   */
  function Without(all: seq<string>, drop: seq<string>): (r: seq<string>)
    ensures forall t :: t in r <==> t in all && t !in drop
    decreases |all|
  {
    if |all| == 0 then []
    else
      var rest := Without(all[1..], drop);
      if all[0] in drop then rest else [all[0]] + rest
  }

  /**
    `Without` keeps the order of `all`, and each kept table as often as
    `all` holds it, while no dropped table remains.
   */
  lemma {:induction false} WithoutOrderAndCounts(all: seq<string>, drop: seq<string>)
    ensures IsSubsequence(Without(all, drop), all)
    ensures forall t :: multiset(Without(all, drop))[t] == if t in drop then 0 else multiset(all)[t]
    decreases |all|
  {
    if |all| > 0 {
      assert all == [all[0]] + all[1..];
      WithoutOrderAndCounts(all[1..], drop);
      var rest := Without(all[1..], drop);
      if all[0] !in drop {
        assert ([all[0]] + rest)[1..] == rest;
      }
    }
  }

  /**
    The tables given to mydumper's `--tables-list`: the explicit whitelist
    when there is one, otherwise every table of the database outside the
    merged skip list.
   */
  function DataTables(sel: Selection, all: seq<string>): (r: seq<string>)
    ensures |sel.tables| > 0 ==> r == sel.tables
    ensures |sel.tables| == 0 ==>
      forall t :: t in r <==> t in all && t !in sel.skip && t !in sel.structure
    ensures |sel.tables| == 0 ==> IsSubsequence(r, all)
    // and each kept table exactly as often as the database lists it
    ensures |sel.tables| == 0 ==>
      forall t :: multiset(r)[t] == (if t in sel.skip || t in sel.structure then 0 else multiset(all)[t])
  {
    if |sel.tables| > 0 then sel.tables
    else
      WithoutOrderAndCounts(all, EffectiveSkip(sel));
      Without(all, EffectiveSkip(sel))
  }

  lemma {:induction false} SubsequenceCounts<T>(a: seq<T>, b: seq<T>)
    requires IsSubsequence(a, b)
    ensures multiset(a) <= multiset(b)
    decreases |b|
  {
    if |a| > 0 {
      assert b == [b[0]] + b[1..];
      if a[0] == b[0] && IsSubsequence(a[1..], b[1..]) {
        SubsequenceCounts(a[1..], b[1..]);
        assert a == [a[0]] + a[1..];
      } else {
        SubsequenceCounts(a, b[1..]);
      }
    }
  }

  /**
    `Without` is the only list that keeps the order of `all` and holds each
    kept table exactly as often as `all` does and no dropped table: any
    such list is the default `--tables-list`.
   */
  lemma {:induction false} WithoutIsUnique(s: seq<string>, all: seq<string>, drop: seq<string>)
    requires IsSubsequence(s, all)
    requires forall t :: multiset(s)[t] == if t in drop then 0 else multiset(all)[t]
    ensures s == Without(all, drop)
    decreases |all|
  {
    if |all| > 0 {
      var h, rest := all[0], all[1..];
      assert all == [h] + rest;
      if h in drop {
        if |s| > 0 {
          assert s[0] in multiset(s);
          assert s[0] != h;
        }
        WithoutIsUnique(s, rest, drop);
      } else {
        assert multiset(s)[h] > 0;
        assert |s| > 0;
        if !(s[0] == h && IsSubsequence(s[1..], rest)) {
          SubsequenceCounts(s, rest);
          assert false;
        }
        assert s == [h] + s[1..];
        WithoutIsUnique(s[1..], rest, drop);
      }
    }
  }

  /**
    Only membership in the dropped list matters: lists with the same members,
    in any order and with any repetition, drop the same tables.
   */
  lemma {:induction false} WithoutSameMembers(all: seq<string>, d1: seq<string>, d2: seq<string>)
    requires forall t :: t in d1 <==> t in d2
    ensures Without(all, d1) == Without(all, d2)
    decreases |all|
  {
    if |all| > 0 {
      WithoutSameMembers(all[1..], d1, d2);
    }
  }

  /** Dropping the merged list is the same as dropping one list and then the other. */
  lemma {:induction false} WithoutConcat(all: seq<string>, a: seq<string>, b: seq<string>)
    ensures Without(all, a + b) == Without(Without(all, a), b)
    decreases |all|
  {
    if |all| > 0 {
      WithoutConcat(all[1..], a, b);
      if all[0] !in a {
        var rest := Without(all[1..], a);
        assert ([all[0]] + rest)[1..] == rest;
      }
    }
  }
}
