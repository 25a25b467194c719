/** The `valid_paren` test of run_examples.py, line 182. */
module ParensExample {
  import opened Wrappers
  import opened Parens

  /** "()[]{}" reads back to an empty stack. */
  lemma RunOfExample(s: string)
    requires s == "()[]{}"
    ensures Run([], s) == Some([])
  {
    assert s[..5][..4] == s[..4] && s[..4][..3] == s[..3] && s[..3][..2] == s[..2];
    assert s[..2][..1] == s[..1] && s[..1][..0] == [];
    assert Step([], '(') == Some(['(']) && Step([], '[') == Some(['[']) && Step([], '{') == Some(['{']) by {
      assert [] + ['('] == ['('] && [] + ['['] == ['['] && [] + ['{'] == ['{'];
    }
    assert Run([], s[..1]) == Some(['(']);
    assert Run([], s[..2]) == Some([]);
    assert Run([], s[..3]) == Some(['[']);
    assert Run([], s[..4]) == Some([]);
    assert Run([], s[..5]) == Some(['{']);
  }

  /** `valid_paren("()[]{}")` is true. */
  method Example() returns (r: bool)
    ensures r
  {
    var s := "()[]{}";
    r := ValidParen(s);
    RunOfExample(s);
  }

  /** A closer that meets the wrong opener: `valid_paren("(]")` is false. */
  method Mismatched() returns (r: bool)
    ensures !r
  {
    var s := "(]";
    r := ValidParen(s);
    assert s[..1] == "(" && s[..1][..0] == [];
  }
}
