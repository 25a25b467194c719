/**
 * `valid_paren` of run_examples.py: a stack-based check that the brackets
 * `()`, `[]` and `{}` of a string are properly nested; every other character is
 * skipped. The loop is proved against `Run`, a fold of one stack step per
 * character, and `Run` against an independent description of nesting: the
 * bracket characters are the yield of a tree built from empty, wrap and
 * concatenation.
 */
module Parens {
  import opened Wrappers

  predicate IsOpen(c: char)
  {
    c == '(' || c == '[' || c == '{'
  }

  predicate IsClose(c: char)
  {
    c == ')' || c == ']' || c == '}'
  }

  /** The dictionary `pairs`: each closing bracket's opening partner. */
  function OpenerOf(c: char): (o: char)
    requires IsClose(c)
    ensures IsOpen(o)
  {
    if c == ')' then '(' else if c == ']' then '[' else '{'
  }

  /** The closing partner of an opening bracket. */
  function CloserOf(o: char): (c: char)
    requires IsOpen(o)
    ensures IsClose(c) && OpenerOf(c) == o
  {
    if o == '(' then ')' else if o == '[' then ']' else '}'
  }

  /** One loop step: push an opener, pop the partner of a closer, skip anything else; None is `return False`. */
  function Step(stack: seq<char>, c: char): Option<seq<char>>
  {
    if IsOpen(c) then Some(stack + [c])
    else if IsClose(c) then
      if stack == [] || stack[|stack| - 1] != OpenerOf(c) then None
      else Some(stack[..|stack| - 1])
    else Some(stack)
  }

  /** The stack after reading s from the given stack, or None once a closer fails to match. */
  function Run(stack: seq<char>, s: string): Option<seq<char>>
  {
    if s == [] then Some(stack)
    else match Run(stack, s[..|s| - 1])
      case None => None
      case Some(t) => Step(t, s[|s| - 1])
  }

  /** Once a prefix fails, the whole string fails. */
  lemma {:induction false} RunNonePrefix(stack: seq<char>, s: string, n: int)
    requires 0 <= n <= |s| && Run(stack, s[..n]) == None
    ensures Run(stack, s) == None
    decreases |s|
  {
    if n < |s| {
      assert s[..|s| - 1][..n] == s[..n];
      RunNonePrefix(stack, s[..|s| - 1], n);
    } else {
      assert s[..n] == s;
    }
  }

  /**
   * `valid_paren(s)`: true exactly when no closer meets a wrong or missing
   * opener and no opener is left over, that is exactly when the brackets of s nest.
   */
  method ValidParen(s: string) returns (r: bool)
    ensures r <==> Run([], s) == Some([])
    ensures r <==> Balanced(Brackets(s))
  {
    ValidIffBalanced(s);
    var stack: seq<char> := [];
    var i := 0;
    while i < |s|
      invariant 0 <= i <= |s|
      invariant Run([], s[..i]) == Some(stack)
    {
      var ch := s[i];
      assert s[..i + 1][..i] == s[..i];
      if IsOpen(ch) {
        stack := stack + [ch];
      } else if IsClose(ch) {
        if stack == [] || stack[|stack| - 1] != OpenerOf(ch) {
          RunNonePrefix([], s, i + 1);
          return false;
        }
        stack := stack[..|stack| - 1];
      }
      i := i + 1;
    }
    assert s[..i] == s;
    r := stack == [];
  }

  // ---------------------------------------------------------------------------
  // Nesting, independently of the stack

  /** How nested brackets are built: nothing, a pair around a nested string, or two side by side. */
  datatype Tree = Empty | Wrap(open: char, inner: Tree) | Cat(left: Tree, right: Tree)

  ghost predicate Good(t: Tree)
  {
    match t
    case Empty => true
    case Wrap(o, inner) => IsOpen(o) && Good(inner)
    case Cat(l, r) => Good(l) && Good(r)
  }

  /** The brackets a tree spells out. */
  function Yield(t: Tree): string
  {
    match t
    case Empty => []
    case Wrap(o, inner) => if IsOpen(o) then [o] + Yield(inner) + [CloserOf(o)] else Yield(inner)
    case Cat(l, r) => Yield(l) + Yield(r)
  }

  /** A string of brackets is properly nested when some tree spells it out. */
  ghost predicate Balanced(b: string)
  {
    exists t :: Good(t) && Yield(t) == b
  }

  /** The bracket characters of s, in order. */
  function Brackets(s: string): (b: string)
    ensures forall k :: 0 <= k < |b| ==> IsOpen(b[k]) || IsClose(b[k])
  {
    if s == [] then []
    else
      var c := s[|s| - 1];
      Brackets(s[..|s| - 1]) + (if IsOpen(c) || IsClose(c) then [c] else [])
  }

  /** Reading u then v is reading u, then reading v from where u left the stack. */
  lemma {:induction false} RunAppend(stack: seq<char>, u: string, v: string)
    ensures Run(stack, u + v) == match Run(stack, u) case None => None case Some(t) => Run(t, v)
    decreases |v|
  {
    if v == [] {
      assert u + v == u;
    } else {
      var w, c := v[..|v| - 1], v[|v| - 1];
      assert (u + v)[..|u + v| - 1] == u + w;
      RunAppend(stack, u, w);
    }
  }

  /** Characters other than brackets do not affect the run. */
  lemma {:induction false} RunIgnoresOthers(stack: seq<char>, s: string)
    ensures Run(stack, s) == Run(stack, Brackets(s))
    decreases |s|
  {
    if s != [] {
      var p, c := s[..|s| - 1], s[|s| - 1];
      RunIgnoresOthers(stack, p);
      if IsOpen(c) || IsClose(c) {
        var b := Brackets(p) + [c];
        assert b[..|b| - 1] == Brackets(p);
      } else {
        assert Brackets(s) == Brackets(p);
      }
    }
  }

  /** A nested string leaves the stack as it found it. */
  lemma {:induction false} RunGood(stack: seq<char>, t: Tree)
    requires Good(t)
    ensures Run(stack, Yield(t)) == Some(stack)
    decreases t
  {
    match t
    case Empty =>
    case Wrap(o, inner) =>
      RunGood(stack + [o], inner);
      RunAppend(stack, [o], Yield(inner));
      assert Run(stack, [o]) == Some(stack + [o]) by {
        assert [o][..0] == [];
      }
      RunAppend(stack, [o] + Yield(inner), [CloserOf(o)]);
      assert Run(stack + [o], [CloserOf(o)]) == Some(stack) by {
        assert [CloserOf(o)][..0] == [];
        assert (stack + [o])[..|stack|] == stack;
      }
    case Cat(l, r) =>
      RunGood(stack, l);
      RunGood(stack, r);
      RunAppend(stack, Yield(l), Yield(r));
  }

  /** An opening bracket still waiting for its partner, and the nested string read since it. */
  datatype Frame = Frame(open: char, tree: Tree)

  ghost predicate GoodFrames(fs: seq<Frame>)
  {
    forall j :: 0 <= j < |fs| ==> IsOpen(fs[j].open) && Good(fs[j].tree)
  }

  /** The openers of the frames: the stack. */
  function Openers(fs: seq<Frame>): (st: seq<char>)
    ensures |st| == |fs|
  {
    if fs == [] then [] else Openers(fs[..|fs| - 1]) + [fs[|fs| - 1].open]
  }

  /** A nested string, then each waiting opener followed by the nested string read since it. */
  function Layout(base: Tree, fs: seq<Frame>): string
  {
    if fs == [] then Yield(base)
    else
      var f := fs[|fs| - 1];
      Layout(base, fs[..|fs| - 1]) + [f.open] + Yield(f.tree)
  }

  /** Closing the last frame keeps every tree nested, drops the last opener and appends the closer. */
  lemma CloseFrame(base: Tree, fs: seq<Frame>, c: char)
    requires |fs| > 0 && GoodFrames(fs) && Good(base) && IsClose(c) && OpenerOf(c) == fs[|fs| - 1].open
    ensures Good(Closed(base, fs).0) && GoodFrames(Closed(base, fs).1)
    ensures Openers(Closed(base, fs).1) == Openers(fs)[..|fs| - 1]
    ensures Layout(Closed(base, fs).0, Closed(base, fs).1) == Layout(base, fs) + [c]
  {
    CloseGood(base, fs);
    CloseOpeners(base, fs);
    CloseLayout(base, fs, c);
  }

  lemma CloseGood(base: Tree, fs: seq<Frame>)
    requires |fs| > 0 && GoodFrames(fs) && Good(base)
    ensures Good(Closed(base, fs).0) && GoodFrames(Closed(base, fs).1)
  {
    var n := |fs|;
    if n > 1 {
      var fs' := Closed(base, fs).1;
      forall j | 0 <= j < n - 1 ensures IsOpen(fs'[j].open) && Good(fs'[j].tree) {
        if j < n - 2 {
          assert fs'[j] == fs[j];
        }
      }
    }
  }

  lemma CloseOpeners(base: Tree, fs: seq<Frame>)
    requires |fs| > 0
    ensures Openers(Closed(base, fs).1) == Openers(fs)[..|fs| - 1]
  {
    var n := |fs|;
    var init := fs[..n - 1];
    assert Openers(fs) == Openers(init) + [fs[n - 1].open];
    if n == 1 {
      assert init == [];
    } else {
      var rest := fs[..n - 2];
      var fs' := Closed(base, fs).1;
      assert init[..n - 2] == rest && fs'[..n - 2] == rest;
      assert Openers(fs') == Openers(rest) + [fs[n - 2].open];
      assert Openers(init) == Openers(rest) + [fs[n - 2].open];
    }
  }

  lemma CloseLayout(base: Tree, fs: seq<Frame>, c: char)
    requires |fs| > 0 && IsOpen(fs[|fs| - 1].open) && IsClose(c) && OpenerOf(c) == fs[|fs| - 1].open
    ensures Layout(Closed(base, fs).0, Closed(base, fs).1) == Layout(base, fs) + [c]
  {
    var f := fs[|fs| - 1];
    assert CloserOf(f.open) == c;
    if |fs| == 1 {
      CloseLayoutLast(base, f, c);
      assert fs == [f];
    } else {
      CloseLayoutInner(base, fs[..|fs| - 2], fs[|fs| - 2], f, c);
      assert fs == fs[..|fs| - 2] + [fs[|fs| - 2], f];
    }
  }

  lemma CloseLayoutLast(base: Tree, f: Frame, c: char)
    requires IsOpen(f.open) && c == CloserOf(f.open)
    ensures Layout(Closed(base, [f]).0, []) == Layout(base, [f]) + [c]
  {
    assert [f][..0] == [];
    var w := Yield(Wrap(f.open, f.tree));
    assert w == [f.open] + Yield(f.tree) + [c];
    assert Layout(base, [f]) == Yield(base) + [f.open] + Yield(f.tree);
    assert Layout(Closed(base, [f]).0, []) == Yield(base) + w;
  }

  lemma CloseLayoutInner(base: Tree, rest: seq<Frame>, g: Frame, f: Frame, c: char)
    requires IsOpen(f.open) && c == CloserOf(f.open)
    ensures Layout(base, rest + [Frame(g.open, Cat(g.tree, Wrap(f.open, f.tree)))]) == Layout(base, rest + [g, f]) + [c]
  {
    var fs := rest + [g, f];
    var fs' := rest + [Frame(g.open, Cat(g.tree, Wrap(f.open, f.tree)))];
    assert fs[..|fs| - 1] == rest + [g];
    assert (rest + [g])[..|rest|] == rest && fs'[..|rest|] == rest;
    var l := Layout(base, rest);
    var w := Yield(Wrap(f.open, f.tree));
    assert w == [f.open] + Yield(f.tree) + [c];
    assert Layout(base, fs') == l + [g.open] + Yield(Cat(g.tree, Wrap(f.open, f.tree)));
    assert Layout(base, fs') == l + [g.open] + (Yield(g.tree) + ([f.open] + Yield(f.tree) + [c]));
    assert Layout(base, fs) == l + [g.open] + Yield(g.tree) + [f.open] + Yield(f.tree);
  }

  /** The frames after a matching closer. */
  function Closed(base: Tree, fs: seq<Frame>): (Tree, seq<Frame>)
    requires |fs| > 0
  {
    var n := |fs|;
    var f := fs[n - 1];
    if n == 1 then (Cat(base, Wrap(f.open, f.tree)), [])
    else
      var g := fs[n - 2];
      (base, fs[..n - 2] + [Frame(g.open, Cat(g.tree, Wrap(f.open, f.tree)))])
  }

  /** Whatever a successful run leaves on the stack, the brackets read so far are laid out around it. */
  lemma {:induction false} Complete(s: string) returns (base: Tree, fs: seq<Frame>)
    requires Run([], s).Some?
    ensures Good(base) && GoodFrames(fs)
    ensures Openers(fs) == Run([], s).value && Layout(base, fs) == Brackets(s)
    decreases |s|
  {
    if s == [] {
      return Empty, [];
    }
    var p, c := s[..|s| - 1], s[|s| - 1];
    base, fs := Complete(p);
    if IsOpen(c) {
      var fs' := fs + [Frame(c, Empty)];
      assert fs'[..|fs'| - 1] == fs;
      fs := fs';
    } else if IsClose(c) {
      CloseFrame(base, fs, c);
      base, fs := Closed(base, fs).0, Closed(base, fs).1;
    }
  }

  /** The run succeeds with an empty stack exactly when the brackets nest. */
  lemma ValidIffBalanced(s: string)
    ensures Run([], s) == Some([]) <==> Balanced(Brackets(s))
  {
    if Run([], s) == Some([]) {
      var base, fs := Complete(s);
      assert Good(base) && Yield(base) == Brackets(s);
    }
    if Balanced(Brackets(s)) {
      var t :| Good(t) && Yield(t) == Brackets(s);
      RunGood([], t);
      RunIgnoresOthers([], s);
    }
  }
}
