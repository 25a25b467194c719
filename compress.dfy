/**
 * `compress_string` of run_examples.py: run-length compression. Each maximal run
 * of one character becomes the character followed by the run's length when that
 * is more than 1; the compressed form is returned only when it is strictly
 * shorter than the input.
 */
module Compress {
  import opened Text

  /** A maximal run: `n` copies of `c`. */
  datatype Run = Run(c: char, n: nat)

  /** One character on: it lengthens the last run when it repeats that run's character, and starts a new run otherwise. */
  function Extend(r: seq<Run>, c: char): seq<Run>
  {
    if r != [] && r[|r| - 1].c == c then r[..|r| - 1] + [Run(c, r[|r| - 1].n + 1)]
    else r + [Run(c, 1)]
  }

  /** The runs of s[..i], left to right, built one character at a time as the loop does. */
  function RunsOf(s: string, i: nat): seq<Run>
    requires i <= |s|
  {
    if i == 0 then [] else Extend(RunsOf(s, i - 1), s[i - 1])
  }

  /** The runs of `s`. */
  function Runs(s: string): seq<Run>
  {
    RunsOf(s, |s|)
  }

  /** How one run is written: `prev + (str(count) if count > 1 else '')`. */
  function Piece(run: Run): string
  {
    [run.c] + (if run.n > 1 then IntToString(run.n) else "")
  }

  /** The list `res` holds one piece per finished run. */
  function Pieces(runs: seq<Run>): (ps: seq<string>)
    ensures |ps| == |runs| && forall i :: 0 <= i < |runs| ==> ps[i] == Piece(runs[i])
  {
    seq(|runs|, i requires 0 <= i < |runs| => Piece(runs[i]))
  }

  /** `''.join(ws)`. */
  function Concat(ws: seq<string>): string
  {
    if ws == [] then "" else Concat(ws[..|ws| - 1]) + ws[|ws| - 1]
  }

  /** The run-length form of `s`. */
  function Encode(runs: seq<Run>): string
  {
    Concat(Pieces(runs))
  }

  /** What `compress_string` returns. */
  function Compressed(s: string): string
  {
    if s == [] then [] else if |Encode(Runs(s))| < |s| then Encode(Runs(s)) else s
  }

  /** `compress_string(s)`, with the loop over `s[1:]` and the list of pieces. */
  method CompressString(s: string) returns (r: string)
    ensures r == Compressed(s)
    ensures |r| <= |s|
    ensures r == s || |r| < |s|
  {
    if s == [] {
      return "";
    }
    var res: seq<string> := [];
    var prev := s[0];
    var count: nat := 1;
    ghost var done: seq<Run> := [];
    var i := 1;
    while i < |s|
      invariant 1 <= i <= |s|
      invariant RunsOf(s, i) == done + [Run(prev, count)]
      invariant res == Pieces(done)
    {
      var ch := s[i];
      RunsOfStep(s, i, done, Run(prev, count));
      if ch == prev {
        count := count + 1;
      } else {
        AppendPiece(done, Run(prev, count));
        res := res + [Piece(Run(prev, count))];
        done := done + [Run(prev, count)];
        prev := ch;
        count := 1;
      }
      i := i + 1;
    }
    AppendPiece(done, Run(prev, count));
    res := res + [Piece(Run(prev, count))];
    var comp := Concat(res);
    assert comp == Encode(Runs(s));
    r := if |comp| < |s| then comp else s;
  }

  /** The loop's step: a repeated character lengthens the current run, another one starts a new run. */
  lemma RunsOfStep(s: string, i: nat, done: seq<Run>, last: Run)
    requires i < |s| && RunsOf(s, i) == done + [last]
    ensures RunsOf(s, i + 1) == if s[i] == last.c then done + [Run(last.c, last.n + 1)] else done + [last, Run(s[i], 1)]
  {
    if s[i] == last.c {
      ExtendSame(done, last.c, last.n);
    } else {
      ExtendNew(done + [last], s[i]);
      assert done + [last] + [Run(s[i], 1)] == done + [last, Run(s[i], 1)];
    }
  }

  lemma AppendPiece(runs: seq<Run>, run: Run)
    ensures Pieces(runs + [run]) == Pieces(runs) + [Piece(run)]
  {
  }

  // ---------------------------------------------------------------------------
  // What the runs mean

  /** `n` copies of `c`. */
  function Repeat(c: char, n: nat): (s: string)
    ensures |s| == n
  {
    if n == 0 then [] else Repeat(c, n - 1) + [c]
  }

  /** Writing every run out in full. */
  function Expand(runs: seq<Run>): string
  {
    if runs == [] then [] else Expand(runs[..|runs| - 1]) + Repeat(runs[|runs| - 1].c, runs[|runs| - 1].n)
  }

  /** Runs are non-empty, and neighbouring runs hold different characters. */
  ghost predicate Maximal(runs: seq<Run>)
  {
    && (forall i :: 0 <= i < |runs| ==> runs[i].n >= 1)
    && (forall i, j {:trigger runs[i], runs[j]} :: 0 <= i && j == i + 1 && j < |runs| ==> runs[i].c != runs[j].c)
  }

  /** The runs of s[..i] depend only on s[..i]. */
  lemma {:induction false} RunsOfPrefix(s: string, t: string, i: nat)
    requires i <= |s| && i <= |t| && forall k :: 0 <= k < i ==> s[k] == t[k]
    ensures RunsOf(s, i) == RunsOf(t, i)
  {
    if i > 0 {
      RunsOfPrefix(s, t, i - 1);
    }
  }

  /** The runs cover the string exactly. */
  lemma RunsExpand(s: string)
    ensures Expand(Runs(s)) == s
  {
    RunsOfExpand(s, |s|);
    assert s[..|s|] == s;
  }

  lemma {:induction false} RunsOfExpand(s: string, i: nat)
    requires i <= |s|
    ensures Expand(RunsOf(s, i)) == s[..i]
  {
    if i > 0 {
      var r, p, c := RunsOf(s, i - 1), s[..i - 1], s[i - 1];
      RunsOfExpand(s, i - 1);
      RunsStep(r, p, c);
      PrefixSnoc(s, i);
      assert RunsOf(s, i) == Extend(r, c);
    }
  }

  /** A prefix one longer is the shorter prefix and the next character. */
  lemma PrefixSnoc(s: string, i: nat)
    requires 0 < i <= |s|
    ensures s[..i] == s[..i - 1] + [s[i - 1]]
  {
  }

  /** One more character extends the last run or starts a new one. */
  lemma RunsSnoc(p: string, c: char)
    ensures Runs(p + [c]) == Extend(Runs(p), c)
  {
    var q := p + [c];
    assert forall k :: 0 <= k < |p| ==> q[k] == p[k];
    RunsOfPrefix(q, p, |p|);
    assert RunsOf(q, |q|) == Extend(RunsOf(q, |p|), q[|p|]);
  }

  /** The expansion grows by the character that updates the runs. */
  lemma RunsStep(r: seq<Run>, p: string, c: char)
    requires Expand(r) == p
    ensures Expand(Extend(r, c)) == p + [c]
  {
    if r != [] && r[|r| - 1].c == c {
      var init, last := r[..|r| - 1], r[|r| - 1];
      assert init + [last] == r;
      ExtendStep(init, c, last.n, p);
    } else {
      ExpandAppend(r, Run(c, 1));
      assert Repeat(c, 1) == [c];
    }
  }

  /** Adding one to the last run's length adds one character to the expansion. */
  lemma ExtendStep(init: seq<Run>, c: char, n: nat, p: string)
    requires Expand(init + [Run(c, n)]) == p
    ensures Expand(init + [Run(c, n + 1)]) == p + [c]
  {
    ExpandAppend(init, Run(c, n));
    ExpandAppend(init, Run(c, n + 1));
    var e, rep := Expand(init), Repeat(c, n);
    assert Repeat(c, n + 1) == rep + [c];
    assert e + (rep + [c]) == (e + rep) + [c];
  }

  /** Every run is non-empty and neighbouring runs hold different characters. */
  lemma RunsMaximal(s: string)
    ensures Maximal(Runs(s))
  {
    RunsOfMaximal(s, |s|);
  }

  lemma {:induction false} RunsOfMaximal(s: string, i: nat)
    requires i <= |s|
    ensures Maximal(RunsOf(s, i))
    ensures i > 0 ==> RunsOf(s, i) != [] && RunsOf(s, i)[|RunsOf(s, i)| - 1].c == s[i - 1]
  {
    if i > 0 {
      RunsOfMaximal(s, i - 1);
      MaximalExtend(RunsOf(s, i - 1), s[i - 1]);
    }
  }

  /** One more character keeps the runs maximal and ends them with that character. */
  lemma MaximalExtend(r: seq<Run>, c: char)
    requires Maximal(r)
    ensures Maximal(Extend(r, c)) && Extend(r, c) != [] && Extend(r, c)[|Extend(r, c)| - 1].c == c
  {
    if r != [] && r[|r| - 1].c == c {
      var r' := r[..|r| - 1] + [Run(c, r[|r| - 1].n + 1)];
      assert forall k :: 0 <= k < |r| - 1 ==> r'[k] == r[k];
    }
  }

  /** The maximal runs of a string are the only maximal runs that expand to it. */
  lemma {:induction false} RunsUnique(runs: seq<Run>)
    requires Maximal(runs)
    ensures Runs(Expand(runs)) == runs
  {
    if runs != [] {
      var init, last := runs[..|runs| - 1], runs[|runs| - 1];
      assert init + [last] == runs;
      assert Maximal(init);
      RunsUnique(init);
      ExpandAppend(init, last);
      if init != [] {
        ExpandLast(init);
        assert init[|init| - 1].c != last.c;
      }
      RunsOfRepeat(Expand(init), last.c, last.n);
    }
  }

  /** The expansion of non-empty maximal runs ends in the last run's character. */
  lemma ExpandLast(runs: seq<Run>)
    requires runs != [] && Maximal(runs)
    ensures Expand(runs) != [] && Expand(runs)[|Expand(runs)| - 1] == runs[|runs| - 1].c
  {
    var last := runs[|runs| - 1];
    var rep := Repeat(last.c, last.n);
    assert rep == Repeat(last.c, last.n - 1) + [last.c];
    assert Expand(runs) == Expand(runs[..|runs| - 1]) + rep;
  }

  /** A non-empty string's last run holds its last character. */
  lemma RunsLast(s: string)
    requires s != []
    ensures Runs(s) != [] && Runs(s)[|Runs(s)| - 1].c == s[|s| - 1]
  {
    RunsOfMaximal(s, |s|);
  }

  /** Appending a run of a character the string does not end in adds exactly that run. */
  lemma {:induction false} RunsOfRepeat(s: string, c: char, n: nat)
    requires n >= 1
    requires s != [] ==> s[|s| - 1] != c
    ensures Runs(s + Repeat(c, n)) == Runs(s) + [Run(c, n)]
  {
    var p := s + Repeat(c, n - 1);
    assert s + Repeat(c, n) == p + [c];
    RunsSnoc(p, c);
    if n == 1 {
      assert p == s;
      if s != [] {
        RunsLast(s);
      }
      ExtendNew(Runs(s), c);
    } else {
      RunsOfRepeat(s, c, n - 1);
      ExtendSame(Runs(s), c, n - 1);
    }
  }

  /** A character other than the last run's starts a run of its own. */
  lemma ExtendNew(r: seq<Run>, c: char)
    requires r != [] ==> r[|r| - 1].c != c
    ensures Extend(r, c) == r + [Run(c, 1)]
  {
  }

  /** The last run's character lengthens that run. */
  lemma ExtendSame(init: seq<Run>, c: char, m: nat)
    ensures Extend(init + [Run(c, m)], c) == init + [Run(c, m + 1)]
  {
    assert (init + [Run(c, m)])[..|init|] == init;
  }

  lemma {:induction false} ExpandAppend(a: seq<Run>, run: Run)
    ensures Expand(a + [run]) == Expand(a) + Repeat(run.c, run.n)
  {
    assert (a + [run])[..|a|] == a;
  }

  /** The empty string compresses to itself. */
  lemma CompressEmpty()
    ensures Compressed("") == ""
  {
  }

  /** The test at run_examples.py line 81. */
  lemma CompressExample()
    ensures Compressed("aaabbbccc") == "a3b3c3"
  {
    var runs := [Run('a', 3), Run('b', 3), Run('c', 3)];
    assert Maximal(runs);
    ExpandThree('a', 'b', 'c', 3, 3, 3);
    assert Expand(runs) == "aaabbbccc" by {
      RepeatThree('a');
      RepeatThree('b');
      RepeatThree('c');
    }
    RunsUnique(runs);
    EncodeThree(runs);
    assert IntToString(3) == "3";
  }

  lemma RepeatThree(c: char)
    ensures Repeat(c, 3) == [c, c, c]
  {
    assert Repeat(c, 1) == [c];
    assert Repeat(c, 2) == [c, c];
  }

  lemma ExpandThree(a: char, b: char, c: char, i: nat, j: nat, k: nat)
    ensures Expand([Run(a, i), Run(b, j), Run(c, k)]) == Repeat(a, i) + Repeat(b, j) + Repeat(c, k)
  {
    var l1, l2, l3 := [Run(a, i)], [Run(a, i), Run(b, j)], [Run(a, i), Run(b, j), Run(c, k)];
    assert l1[..0] == [] && l2[..1] == l1 && l3[..2] == l2;
    assert Expand(l1) == Repeat(a, i);
    assert Expand(l2) == Repeat(a, i) + Repeat(b, j);
  }

  lemma EncodeThree(runs: seq<Run>)
    requires |runs| == 3
    ensures Encode(runs) == Piece(runs[0]) + Piece(runs[1]) + Piece(runs[2])
  {
    var ps := Pieces(runs);
    assert ps[..2] == [ps[0], ps[1]];
    assert ps[..2][..1] == [ps[0]];
    assert [ps[0]][..0] == [];
    assert Concat([ps[0]]) == ps[0];
    assert Concat(ps[..2]) == ps[0] + ps[1];
  }
}
