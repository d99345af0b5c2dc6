/** The sequence generators of generators.py: `warnLast`, an `enumerate`
    that flags the last element, and `meld`, which lays several sequences
    over one another with the leftmost taking priority. Both are modelled on
    finite sequences, the generator's whole output at once. */
module Generators {
  import opened Results

  // ---------------------------------------------------------------------
  // warnLast (generators.py:3-26)

  /** An element of the input: a tuple is spread into the output row, any
      other value is kept whole. */
  datatype Item<T> = Atom(x: T) | Tuple(xs: seq<T>)

  /** One output row: the element's values followed by the last-flag. */
  datatype Row<T> = Row(values: seq<T>, last: bool)

  /** The values an element contributes to its row: `*curr` for a tuple,
      `curr` otherwise. */
  function Spread<T>(it: Item<T>): seq<T>
  {
    match it
    case Atom(x) => [x]
    case Tuple(xs) => xs
  }

  /** `warnLast(obj)`: one row per element, in order, flagged True only
      on the last. An empty input makes the first `next(it)` raise
      StopIteration inside the generator, which surfaces as RuntimeError. */
  method WarnLast<T>(s: seq<Item<T>>) returns (r: Result<seq<Row<T>>>)
    ensures r.Err? <==> |s| == 0
    ensures r.Err? ==> r.error == RuntimeError
    ensures r.Ok? ==> |r.value| == |s|
    ensures r.Ok? ==> forall k :: 0 <= k < |s| ==> r.value[k] == Row(Spread(s[k]), k == |s| - 1)
  {
    if |s| == 0 {
      return Err(RuntimeError);
    }
    var curr := s[0];
    var out: seq<Row<T>> := [];
    var i := 1;
    while i < |s|
      invariant 1 <= i <= |s| && |out| == i - 1 && curr == s[i - 1]
      invariant forall k :: 0 <= k < i - 1 ==> out[k] == Row(Spread(s[k]), false)
    {
      out := out + [Row(Spread(curr), false)];
      curr := s[i];
      i := i + 1;
    }
    out := out + [Row(Spread(curr), true)];
    r := Ok(out);
  }

  /** The number of rows that carry the last-flag. */
  function Flagged<T>(rows: seq<Row<T>>): (c: nat)
    ensures c <= |rows|
  {
    if rows == [] then 0 else (if rows[0].last then 1 else 0) + Flagged(rows[1..])
  }

  /** The rows `warnLast` produces for a non-empty input. */
  function Rows<T>(s: seq<Item<T>>): (r: seq<Row<T>>)
    ensures |r| == |s|
  {
    seq(|s|, k requires 0 <= k < |s| => Row(Spread(s[k]), k == |s| - 1))
  }

  /** What `warnLast` produces is the row list above. */
  method WarnLastRows<T>(s: seq<Item<T>>) returns (r: Result<seq<Row<T>>>)
    ensures |s| > 0 ==> r == Ok(Rows(s))
    ensures |s| == 0 ==> r == Err(RuntimeError)
  {
    r := WarnLast(s);
    if |s| > 0 {
      assert r.value == Rows(s);
    }
  }

  /** Exactly one row is flagged, and it is the last one. */
  lemma {:induction false} OneFlag<T>(s: seq<Item<T>>)
    requires |s| > 0
    ensures Flagged(Rows(s)) == 1
    ensures Rows(s)[|s| - 1].last
  {
    FlaggedPrefix(Rows(s), |s| - 1);
    assert Rows(s) == Rows(s)[..|s| - 1] + [Rows(s)[|s| - 1]];
    FlaggedAppend(Rows(s)[..|s| - 1], [Rows(s)[|s| - 1]]);
    assert Flagged([Rows(s)[|s| - 1]]) == 1;
  }

  lemma {:induction false} FlaggedPrefix<T>(rows: seq<Row<T>>, n: nat)
    requires n <= |rows|
    requires forall k :: 0 <= k < n ==> !rows[k].last
    ensures Flagged(rows[..n]) == 0
  {
    if n > 0 {
      assert rows[..n][1..] == rows[1..][..n - 1];
      FlaggedPrefix(rows[1..], n - 1);
    }
  }

  lemma {:induction false} FlaggedAppend<T>(a: seq<Row<T>>, b: seq<Row<T>>)
    ensures Flagged(a + b) == Flagged(a) + Flagged(b)
  {
    if a == [] {
      assert a + b == b;
    } else {
      assert (a + b)[0] == a[0];
      assert (a + b)[1..] == a[1..] + b;
      FlaggedAppend(a[1..], b);
    }
  }

  /** Dropping the flags gives back the input, tuples spread. */
  lemma RowsKeepValues<T>(s: seq<Item<T>>, k: nat)
    requires k < |s|
    ensures Rows(s)[k].values == Spread(s[k])
    ensures Rows(s)[k].last <==> k == |s| - 1
  {
  }

  // ---------------------------------------------------------------------
  // meld (generators.py:28-49)

  /** The length of the longest argument (0 for none). */
  function MaxLen<T>(args: seq<seq<T>>): (m: nat)
    ensures forall k :: 0 <= k < |args| ==> |args[k]| <= m
  {
    if args == [] then 0
    else
      var m := MaxLen(args[1..]);
      assert forall k :: 1 <= k < |args| ==> args[k] == args[1..][k - 1];
      if |args[0]| >= m then |args[0]| else m
  }

  /** The length of the shortest argument, the number of `zip` rounds. */
  function MinLen<T>(args: seq<seq<T>>): (m: nat)
    requires |args| > 0
    ensures forall k :: 0 <= k < |args| ==> m <= |args[k]|
    ensures NoneEmpty(args) ==> m > 0
  {
    if |args| == 1 then |args[0]|
    else
      var m := MinLen(args[1..]);
      assert forall k :: 1 <= k < |args| ==> args[k] == args[1..][k - 1];
      if |args[0]| <= m then |args[0]| else m
  }

  /** `[it[N:] for it in iterables if N < len(it)]`. */
  function Tails<T>(args: seq<seq<T>>, n: nat): (r: seq<seq<T>>)
    ensures forall k :: 0 <= k < |r| ==> |r[k]| > 0
  {
    if args == [] then []
    else
      var rest := Tails(args[1..], n);
      (if |args[0]| > n then [args[0][n..]] else []) + rest
  }

  predicate NoneEmpty<T>(args: seq<seq<T>>)
  {
    forall k :: 0 <= k < |args| ==> |args[k]| > 0
  }

  /** The generator's output for arguments that are all non-empty: the
      first argument for as long as every argument lasts, then the meld of
      what is left of the longer ones. It runs as long as the longest
      argument and takes each position from the leftmost argument that
      reaches it. */
  function MeldAll<T>(args: seq<seq<T>>): (r: seq<T>)
    requires |args| > 0 && NoneEmpty(args)
    ensures |r| == MaxLen(args)
    ensures forall p :: 0 <= p < |r| ==> r[p] == Pick(args, p)
    decreases MaxLen(args)
  {
    var m := MinLen(args);
    var rest := Tails(args, m);
    MaxLenTails(args, m);
    var tail := if rest == [] then [] else MeldAll(rest);
    MeldRound(args, m, rest, tail);
    args[0][..m] + tail
  }

  /** `list(meld(*iterables))`: with no arguments, or an empty one, the
      first `zip` round never happens and `N += 1` reads an unbound N. */
  function Meld<T>(args: seq<seq<T>>): (r: Result<seq<T>>)
    ensures r.Err? <==> |args| == 0 || !NoneEmpty(args)
    ensures r.Err? ==> r.error == UnboundLocalError
  {
    if |args| == 0 || !NoneEmpty(args) then Err(UnboundLocalError) else Ok(MeldAll(args))
  }

  /** The reference reading of the docstring: output position p is element
      p of the leftmost argument longer than p. */
  function Pick<T>(args: seq<seq<T>>, p: nat): T
    requires p < MaxLen(args)
  {
    if |args[0]| > p then args[0][p] else Pick(args[1..], p)
  }

  /** Cutting every argument at n (all at least n long) shifts the pick by n. */
  lemma {:induction false} PickTails<T>(args: seq<seq<T>>, n: nat, p: nat)
    requires forall k :: 0 <= k < |args| ==> n <= |args[k]|
    requires n <= p < MaxLen(args)
    ensures p - n < MaxLen(Tails(args, n))
    ensures Pick(Tails(args, n), p - n) == Pick(args, p)
  {
    var t := Tails(args, n);
    var rest := Tails(args[1..], n);
    assert forall k :: 1 <= k < |args| ==> args[k] == args[1..][k - 1];
    if |args[0]| > p {
      assert t == [args[0][n..]] + rest;
      assert t[0] == args[0][n..];
    } else {
      assert p < MaxLen(args[1..]);
      PickTails(args[1..], n, p);
      if |args[0]| > n {
        assert t == [args[0][n..]] + rest;
        assert t[1..] == rest;
        assert |t[0]| <= p - n;
      } else {
        assert t == rest;
      }
    }
  }

  /** After the cut the longest remaining tail is n shorter. */
  lemma {:induction false} MaxLenTails<T>(args: seq<seq<T>>, n: nat)
    requires forall k :: 0 <= k < |args| ==> n <= |args[k]|
    ensures MaxLen(Tails(args, n)) == if MaxLen(args) > n then MaxLen(args) - n else 0
  {
    if args != [] {
      assert forall k :: 1 <= k < |args| ==> args[k] == args[1..][k - 1];
      MaxLenTails(args[1..], n);
      var rest := Tails(args[1..], n);
      if |args[0]| > n {
        assert Tails(args, n) == [args[0][n..]] + rest;
        assert Tails(args, n)[1..] == rest;
      } else {
        assert Tails(args, n) == rest;
      }
    }
  }

  /** One round of `meld`: the first argument's common prefix followed by
      the meld of the tails picks from the leftmost argument. */
  lemma MeldRound<T>(args: seq<seq<T>>, m: nat, rest: seq<seq<T>>, tail: seq<T>)
    requires |args| > 0 && NoneEmpty(args) && m == MinLen(args) && rest == Tails(args, m)
    requires rest == [] ==> tail == []
    requires rest != [] ==> |tail| == MaxLen(rest)
    requires rest != [] ==> forall p :: 0 <= p < |tail| ==> tail[p] == Pick(rest, p)
    ensures |args[0][..m] + tail| == MaxLen(args)
    ensures forall p :: 0 <= p < MaxLen(args) ==> (args[0][..m] + tail)[p] == Pick(args, p)
  {
    var r := args[0][..m] + tail;
    MaxLenTails(args, m);
    forall p | 0 <= p < MaxLen(args) ensures r[p] == Pick(args, p) {
      if p < m {
        assert r[p] == args[0][p];
      } else {
        PickTails(args, m, p);
        assert r[p] == tail[p - m];
      }
    }
  }

  /** For as long as every argument lasts, the output is the first one. */
  lemma MeldPrefix<T>(args: seq<seq<T>>)
    requires |args| > 0 && NoneEmpty(args)
    ensures Meld(args).Ok?
    ensures MinLen(args) <= |Meld(args).value|
    ensures Meld(args).value[..MinLen(args)] == args[0][..MinLen(args)]
  {
  }

  /** A single argument is passed through unchanged. */
  lemma MeldOne<T>(s: seq<T>)
    requires |s| > 0
    ensures Meld([s]) == Ok(s)
  {
    MeldAllOne([s], s);
  }

  lemma MeldAllOne<T>(args: seq<seq<T>>, s: seq<T>)
    requires args == [s] && |s| > 0
    ensures NoneEmpty(args) && MeldAll(args) == s
  {
    assert MinLen(args) == |s|;
    assert args[1..] == [];
    assert Tails(args, |s|) == [];
    assert s[..|s|] == s;
    assert MeldAll(args) == s[..|s|] + [];
  }

  lemma MeldAllStep<T>(args: seq<seq<T>>, m: nat, rest: seq<seq<T>>)
    requires |args| > 0 && NoneEmpty(args) && m == MinLen(args) && rest == Tails(args, m)
    ensures MeldAll(args) == args[0][..m] + (if rest == [] then [] else MeldAll(rest))
  {
  }

  /** One round of the recursion, with its output and the rest's output
      already known. */
  lemma MeldAllCompose<T>(args: seq<seq<T>>, m: nat, rest: seq<seq<T>>, head: seq<T>, tail: seq<T>)
    requires |args| > 0 && NoneEmpty(args) && m == MinLen(args) && rest == Tails(args, m)
    requires rest != [] && MeldAll(rest) == tail && args[0][..m] == head
    ensures MeldAll(args) == head + tail
  {
    MeldAllStep(args, m, rest);
  }

  /** The docstring example: 'abcd', 'efghi', 'jkl', 'mnopqrs' meld to
      'abcdirs'. */
  lemma MeldExample()
    ensures Meld(["abcd", "efghi", "jkl", "mnopqrs"]) == Ok("abcdirs")
  {
    var a := ["abcd", "efghi", "jkl", "mnopqrs"];
    MeldRound1(a);
    Spelled();
  }

  lemma Spelled()
    ensures "abc" + ("d" + ("i" + "rs")) == "abcdirs"
  {
  }

  /** Three rounds for all four, then 'd', 'hi', 'pqrs' are left. */
  lemma MeldRound1(a: seq<string>)
    requires a == ["abcd", "efghi", "jkl", "mnopqrs"]
    ensures NoneEmpty(a) && MeldAll(a) == "abc" + ("d" + ("i" + "rs"))
  {
    var rest := ["d", "hi", "pqrs"];
    Round1Cut(a, rest);
    assert a[0][..3] == "abc";
    MeldRound2(rest);
    MeldAllCompose(a, 3, rest, "abc", "d" + ("i" + "rs"));
  }

  lemma Round1Cut(a: seq<string>, rest: seq<string>)
    requires a == ["abcd", "efghi", "jkl", "mnopqrs"] && rest == ["d", "hi", "pqrs"]
    ensures NoneEmpty(a) && MinLen(a) == 3 && Tails(a, 3) == rest
  {
    assert a[1..] == ["efghi", "jkl", "mnopqrs"];
    assert a[1..][1..] == ["jkl", "mnopqrs"];
    assert a[1..][1..][1..] == ["mnopqrs"];
    assert a[1..][1..][1..][1..] == [];
    assert MinLen(a[1..][1..][1..]) == 7;
    assert MinLen(a[1..][1..]) == 3;
    assert Tails(a[1..][1..][1..], 3) == ["pqrs"];
    assert Tails(a[1..][1..], 3) == ["pqrs"];
    assert Tails(a[1..], 3) == ["hi", "pqrs"];
  }

  /** One round for all three, then 'i', 'qrs' are left. */
  lemma MeldRound2(a: seq<string>)
    requires a == ["d", "hi", "pqrs"]
    ensures NoneEmpty(a) && MeldAll(a) == "d" + ("i" + "rs")
  {
    var rest := ["i", "qrs"];
    Round2Cut(a, rest);
    assert a[0][..1] == "d";
    MeldRound3(rest);
    MeldAllCompose(a, 1, rest, "d", "i" + "rs");
  }

  lemma Round2Cut(a: seq<string>, rest: seq<string>)
    requires a == ["d", "hi", "pqrs"] && rest == ["i", "qrs"]
    ensures NoneEmpty(a) && MinLen(a) == 1 && Tails(a, 1) == rest
  {
    assert a[1..] == ["hi", "pqrs"];
    assert a[1..][1..] == ["pqrs"];
    assert a[1..][1..][1..] == [];
    assert Tails(a[1..][1..], 1) == ["qrs"];
    assert Tails(a[1..], 1) == ["i", "qrs"];
  }

  /** One round for both, then 'rs' alone. */
  lemma MeldRound3(a: seq<string>)
    requires a == ["i", "qrs"]
    ensures NoneEmpty(a) && MeldAll(a) == "i" + "rs"
  {
    var rest := ["rs"];
    Round3Cut(a, rest);
    assert a[0][..1] == "i";
    MeldAllOne(rest, "rs");
    MeldAllCompose(a, 1, rest, "i", "rs");
  }

  lemma Round3Cut(a: seq<string>, rest: seq<string>)
    requires a == ["i", "qrs"] && rest == ["rs"]
    ensures NoneEmpty(a) && MinLen(a) == 1 && Tails(a, 1) == rest
  {
    assert a[1..] == ["qrs"];
    assert a[1..][1..] == [];
    assert Tails(a[1..], 1) == ["rs"];
  }
}
