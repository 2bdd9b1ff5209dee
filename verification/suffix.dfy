/**
  The suffix test the upload handler applies to the client-supplied file name:
  Python's `str.endswith`, which compares code points exactly (so it is
  case-sensitive) and accepts a string that IS the suffix.
 */
module Suffix {

  /** `s.endswith(t)`, compared character by character from the right. */
  predicate EndsWith(s: string, t: string)
    decreases |t|
  {
    |t| == 0 || (|s| > 0 && s[|s| - 1] == t[|t| - 1] && EndsWith(s[..|s| - 1], t[..|t| - 1]))
  }

  /** The right-to-left comparison agrees with Python's own definition:
      `t` is the slice of the last `len(t)` characters of `s`. */
  lemma {:induction false} EndsWithIffSlice(s: string, t: string)
    ensures EndsWith(s, t) <==> |t| <= |s| && s[|s| - |t|..] == t
    decreases |t|
  {
    if |t| == 0 {
      assert s[|s|..] == [];
    } else if |s| == 0 {
    } else {
      var s', t' := s[..|s| - 1], t[..|t| - 1];
      EndsWithIffSlice(s', t');
      if |t| <= |s| {
        assert s[|s| - |t|..] == s'[|s'| - |t'|..] + [s[|s| - 1]];
        assert t == t' + [t[|t| - 1]];
        if s[|s| - |t|..] == t {
          assert s[|s| - 1] == t[|t| - 1];
          assert s'[|s'| - |t'|..] == s[|s| - |t|..][..|t'|];
        }
      }
    }
  }

  /** Equivalently: `s` is some prefix followed by `t`. */
  lemma EndsWithIffConcat(s: string, t: string)
    ensures EndsWith(s, t) <==> exists p: string :: s == p + t
  {
    EndsWithIffSlice(s, t);
    if EndsWith(s, t) {
      assert s == s[..|s| - |t|] + t;
    }
    forall p: string | s == p + t
      ensures EndsWith(s, t)
    {
      assert s[|s| - |t|..] == t;
    }
  }
}
