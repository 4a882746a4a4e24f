/**
 * `camelCase`, `pascalCase` and `upperFirst`. In the pattern
 * `/[\W_\s]+([^\W_\s])/g` the class `[\W_\s]` is every character that is not
 * an ASCII letter or digit, and `[^\W_\s]` is an ASCII letter or digit.
 */
module CaseConversion {
  import opened JsValues
  import opened Coercion

  /** `[^\W_\s]`: an ASCII letter or digit. */
  predicate IsAlnum(c: char)
  {
    'A' <= c <= 'Z' || 'a' <= c <= 'z' || '0' <= c <= '9'
  }

  /** `toUpperCase` on one character, for the ASCII letters; every other character is kept. */
  function Upper(c: char): (u: char)
    ensures IsAlnum(u) <==> IsAlnum(c)
    ensures 'a' <= c <= 'z' ==> 'A' <= u <= 'Z' && u as int == c as int - 32
    ensures !('a' <= c <= 'z') ==> u == c
  {
    if 'a' <= c <= 'z' then (c as int - 32) as char else c
  }

  /** The longest prefix of `s` made of separators (`[\W_\s]+`, greedy). */
  function SeparatorRun(s: string): (p: string)
    ensures p <= s
    ensures forall i :: 0 <= i < |p| ==> !IsAlnum(p[i])
    ensures |p| < |s| ==> IsAlnum(s[|p|])
  {
    if s != [] && !IsAlnum(s[0]) then [s[0]] + SeparatorRun(s[1..]) else ""
  }

  /**
   * `v.replace(/[\W_\s]+([^\W_\s])/g, …)`: scanning left to right, every run of
   * separators followed by a letter or digit is replaced by that character
   * upper-cased; a run at the end of the text has no character after it and
   * stays.
   */
  function CamelCase(s: string): (r: string)
    ensures |r| <= |s|
    ensures s != [] ==> r != []
    decreases |s|
  {
    if s == [] then ""
    else if IsAlnum(s[0]) then [s[0]] + CamelCase(s[1..])
    else
      var n := |SeparatorRun(s)|;
      if n < |s| then [Upper(s[n])] + CamelCase(s[n + 1..]) else s
  }

  /** No separator is followed, anywhere later, by a letter or digit. */
  predicate IsCamel(s: string)
  {
    forall i, j :: 0 <= i < j < |s| && !IsAlnum(s[i]) ==> !IsAlnum(s[j])
  }

  /** The letters and digits of `s`, upper-cased, in order. */
  function Folded(s: string): (f: string)
    ensures |f| <= |s|
  {
    if s == [] then "" else (if IsAlnum(s[0]) then [Upper(s[0])] else "") + Folded(s[1..])
  }

  lemma FoldedCons(c: char, t: string)
    ensures Folded([c] + t) == (if IsAlnum(c) then [Upper(c)] else "") + Folded(t)
  {
    assert ([c] + t)[1..] == t;
  }

  /** A run of separators contributes nothing to `Folded`. */
  lemma {:induction false} FoldedSkipsSeparators(s: string, n: nat)
    requires n <= |s| && forall i :: 0 <= i < n ==> !IsAlnum(s[i])
    ensures Folded(s) == Folded(s[n..])
    decreases n
  {
    if n > 0 {
      assert s[1..][n - 1..] == s[n..];
      FoldedSkipsSeparators(s[1..], n - 1);
    }
  }

  /** `camelCase` keeps the letters and digits, in order, up to their case. */
  lemma {:induction false} CamelCaseKeepsFolded(s: string)
    ensures Folded(CamelCase(s)) == Folded(s)
    decreases |s|
  {
    if s == [] {
    } else if IsAlnum(s[0]) {
      CamelCaseKeepsFolded(s[1..]);
      FoldedCons(s[0], CamelCase(s[1..]));
    } else {
      var n := |SeparatorRun(s)|;
      if n < |s| {
        CamelCaseKeepsFolded(s[n + 1..]);
        FoldedCons(Upper(s[n]), CamelCase(s[n + 1..]));
        FoldedSkipsSeparators(s, n);
        assert s[n..] == [s[n]] + s[n + 1..];
        FoldedCons(s[n], s[n + 1..]);
      }
    }
  }

  lemma IsCamelCons(c: char, t: string)
    requires IsAlnum(c) && IsCamel(t)
    ensures IsCamel([c] + t)
  {
    var s := [c] + t;
    forall i, j | 0 <= i < j < |s| && !IsAlnum(s[i])
      ensures !IsAlnum(s[j])
    {
      assert s[i] == t[i - 1] && s[j] == t[j - 1];
    }
  }

  /** The result of `camelCase` has separators only in a run at its end. */
  lemma {:induction false} CamelCaseIsCamel(s: string)
    ensures IsCamel(CamelCase(s))
    decreases |s|
  {
    if s == [] {
    } else if IsAlnum(s[0]) {
      CamelCaseIsCamel(s[1..]);
      IsCamelCons(s[0], CamelCase(s[1..]));
    } else {
      var n := |SeparatorRun(s)|;
      if n < |s| {
        CamelCaseIsCamel(s[n + 1..]);
        IsCamelCons(Upper(s[n]), CamelCase(s[n + 1..]));
      } else {
        assert SeparatorRun(s) == s;
      }
    }
  }

  /** Text whose separators all sit at its end is left as it is. */
  lemma {:induction false} CamelFixedPoint(s: string)
    requires IsCamel(s)
    ensures CamelCase(s) == s
    decreases |s|
  {
    if s == [] {
    } else if IsAlnum(s[0]) {
      assert IsCamel(s[1..]) by {
        forall i, j | 0 <= i < j < |s[1..]| && !IsAlnum(s[1..][i])
          ensures !IsAlnum(s[1..][j])
        {
          assert s[1..][i] == s[i + 1] && s[1..][j] == s[j + 1];
        }
      }
      CamelFixedPoint(s[1..]);
      assert [s[0]] + s[1..] == s;
    } else {
      var n := |SeparatorRun(s)|;
      if n < |s| {
        assert false;
      }
    }
  }

  /** Text with a separator before a letter or digit gets shorter. */
  lemma {:induction false} CamelCaseShortens(s: string)
    requires !IsCamel(s)
    ensures |CamelCase(s)| < |s|
    decreases |s|
  {
    var i, j :| 0 <= i < j < |s| && !IsAlnum(s[i]) && IsAlnum(s[j]);
    if IsAlnum(s[0]) {
      assert s[1..][i - 1] == s[i] && s[1..][j - 1] == s[j];
      CamelCaseShortens(s[1..]);
    } else {
      var n := |SeparatorRun(s)|;
      if n == |s| {
        assert false;
      }
    }
  }

  /** `camelCase` leaves text unchanged exactly when its separators all sit at its end. */
  lemma CamelFixedPointIff(s: string)
    ensures CamelCase(s) == s <==> IsCamel(s)
  {
    if IsCamel(s) {
      CamelFixedPoint(s);
    } else {
      CamelCaseShortens(s);
    }
  }

  /** `camelCase` is idempotent. */
  lemma CamelCaseIdempotent(s: string)
    ensures CamelCase(CamelCase(s)) == CamelCase(s)
  {
    CamelCaseIsCamel(s);
    CamelFixedPoint(CamelCase(s));
  }

  // ---------------------------------------------------------------------------
  // camelCase position by position

  /** Some character of `s` from index `k` on is a letter or digit. */
  predicate AlnumFrom(s: string, k: nat)
  {
    exists j :: k <= j < |s| && IsAlnum(s[j])
  }

  /**
   * What `camelCase` makes of the character at index `i`: a letter or digit
   * at the start or after another one is kept; one after a separator is
   * upper-cased; a separator is dropped when a letter or digit follows it
   * somewhere, and kept when none does.
   */
  function CamelPiece(s: string, i: nat): string
    requires i < |s|
  {
    if IsAlnum(s[i]) then
      if i == 0 || IsAlnum(s[i - 1]) then [s[i]] else [Upper(s[i])]
    else if AlnumFrom(s, i + 1) then ""
    else [s[i]]
  }

  /** The pieces of the characters from index `k` on, in order. */
  function CamelPieces(s: string, k: nat): string
    requires k <= |s|
    decreases |s| - k
  {
    if k == |s| then "" else CamelPiece(s, k) + CamelPieces(s, k + 1)
  }

  /** At a boundary after a letter or digit, the pieces do not depend on what came before. */
  lemma PieceShift(s: string, k: nat, m: nat)
    requires k <= m < |s| && (k == 0 || IsAlnum(s[k - 1]))
    ensures CamelPiece(s, m) == CamelPiece(s[k..], m - k)
  {
    var u := s[k..];
    assert u[m - k] == s[m];
    if m > k {
      assert u[m - k - 1] == s[m - 1];
    }
    if AlnumFrom(s, m + 1) {
      var j :| m + 1 <= j < |s| && IsAlnum(s[j]);
      assert u[j - k] == s[j];
    }
    if AlnumFrom(u, m - k + 1) {
      var j :| m - k + 1 <= j < |u| && IsAlnum(u[j]);
      assert s[j + k] == u[j];
    }
  }

  lemma {:induction false} PiecesShift(s: string, k: nat, m: nat)
    requires k <= m <= |s| && (k == 0 || IsAlnum(s[k - 1]))
    ensures CamelPieces(s, m) == CamelPieces(s[k..], m - k)
    decreases |s| - m
  {
    var u := s[k..];
    assert |u| == |s| - k;
    if m < |s| {
      PieceShift(s, k, m);
      PiecesShift(s, k, m + 1);
      assert CamelPieces(u, m - k) == CamelPiece(u, m - k) + CamelPieces(u, m + 1 - k);
    }
  }

  /** Separators followed, later, by a letter or digit leave no piece. */
  lemma {:induction false} PiecesSkipSeparators(s: string, k: nat, n: nat)
    requires k <= n < |s| && IsAlnum(s[n]) && forall i :: k <= i < n ==> !IsAlnum(s[i])
    ensures CamelPieces(s, k) == CamelPieces(s, n)
    decreases n - k
  {
    if k < n {
      assert AlnumFrom(s, k + 1);
      PiecesSkipSeparators(s, k + 1, n);
    }
  }

  /** Separators with no letter or digit after them are all kept. */
  lemma {:induction false} PiecesKeepTrailing(s: string, k: nat)
    requires k <= |s| && forall i :: k <= i < |s| ==> !IsAlnum(s[i])
    ensures CamelPieces(s, k) == s[k..]
    decreases |s| - k
  {
    if k < |s| {
      assert !AlnumFrom(s, k + 1);
      PiecesKeepTrailing(s, k + 1);
      assert s[k..] == [s[k]] + s[k + 1..];
    }
  }

  /** `camelCase` rewrites each character as its position dictates. */
  lemma {:induction false} CamelCaseByPosition(s: string)
    ensures CamelCase(s) == CamelPieces(s, 0)
    decreases |s|
  {
    if s == [] {
    } else if IsAlnum(s[0]) {
      PiecesShift(s, 1, 1);
      CamelCaseByPosition(s[1..]);
    } else {
      var n := |SeparatorRun(s)|;
      if n < |s| {
        PiecesSkipSeparators(s, 0, n);
        PiecesShift(s, n + 1, n + 1);
        CamelCaseByPosition(s[n + 1..]);
      } else {
        assert SeparatorRun(s) == s;
        PiecesKeepTrailing(s, 0);
      }
    }
  }

  /** A letter or digit in front of the text is kept in front of its conversion. */
  lemma CamelAlnumCons(c: char, t: string)
    requires IsAlnum(c)
    ensures CamelCase([c] + t) == [c] + CamelCase(t)
  {
    assert ([c] + t)[1..] == t;
  }

  /** A separator and a letter or digit in front of the text become that character upper-cased. */
  lemma CamelSeparatorCons(c: char, a: char, t: string)
    requires !IsAlnum(c) && IsAlnum(a)
    ensures CamelCase([c, a] + t) == [Upper(a)] + CamelCase(t)
  {
    var s := [c, a] + t;
    assert s[1..] == [a] + t && s[2..] == t;
    assert SeparatorRun(s) == [c];
  }

  lemma CamelCaseDash()
    ensures CamelCase("any-word") == "anyWord"
  {
    CamelAlnumCons('d', "");
    CamelAlnumCons('r', "d");
    CamelAlnumCons('o', "rd");
    CamelSeparatorCons('-', 'w', "ord");
    CamelAlnumCons('y', "-word");
    CamelAlnumCons('n', "y-word");
    CamelAlnumCons('a', "ny-word");
  }

  lemma CamelCaseUpperSpace()
    ensures CamelCase("ANY WORD") == "ANYWORD"
  {
    CamelAlnumCons('D', "");
    CamelAlnumCons('R', "D");
    CamelAlnumCons('O', "RD");
    CamelSeparatorCons(' ', 'W', "ORD");
    CamelAlnumCons('Y', " WORD");
    CamelAlnumCons('N', "Y WORD");
    CamelAlnumCons('A', "NY WORD");
  }

  // ---------------------------------------------------------------------------
  // pascalCase and upperFirst

  /** `s[0].toUpperCase() + s.substring(1)` for a non-empty `s`. */
  function CapitalizeFirst(s: string): (r: string)
    requires s != []
    ensures |r| == |s| && r[0] == Upper(s[0]) && r[1..] == s[1..]
  {
    [Upper(s[0])] + s[1..]
  }

  /** Upper-casing the first character a second time changes nothing. */
  lemma CapitalizeFirstIdempotent(s: string)
    requires s != []
    ensures CapitalizeFirst(CapitalizeFirst(s)) == CapitalizeFirst(s)
  {
    var t := CapitalizeFirst(s);
    assert Upper(t[0]) == t[0];
    assert CapitalizeFirst(t) == [t[0]] + t[1..];
  }

  /** What V8 throws when `pascalCase('')` reads `toUpperCase` of `''[0]`, which is undefined. */
  const UndefinedToUpperCase: string := "Cannot read properties of undefined (reading 'toUpperCase')"

  /** `pascalCase(v)`: `camelCase(v)` with its first character upper-cased; the empty text throws. */
  function PascalCase(v: string): (r: Result<string>)
    ensures r.Failure? <==> v == []
    ensures r.Failure? ==> r.error == TypeError(UndefinedToUpperCase)
    ensures r.Success? ==>
      |r.value| == |CamelCase(v)| && r.value[0] == Upper(CamelCase(v)[0]) && r.value[1..] == CamelCase(v)[1..]
  {
    var s := CamelCase(v);
    if s == [] then Failure(TypeError(UndefinedToUpperCase)) else Success(CapitalizeFirst(s))
  }

  lemma PascalCaseDash()
    ensures PascalCase("any-word") == Success("AnyWord")
  {
    CamelCaseDash();
    assert CapitalizeFirst("anyWord") == "AnyWord";
  }

  /** Changing the case of the first character keeps text in camel form. */
  lemma IsCamelCapitalized(s: string)
    requires s != [] && IsCamel(s)
    ensures IsCamel(CapitalizeFirst(s))
  {
    var t := CapitalizeFirst(s);
    forall i, j | 0 <= i < j < |t| && !IsAlnum(t[i])
      ensures !IsAlnum(t[j])
    {
      assert IsAlnum(t[i]) == IsAlnum(s[i]) && t[j] == s[j];
    }
  }

  /** `pascalCase` is idempotent. */
  lemma PascalCaseIdempotent(v: string)
    requires PascalCase(v).Success?
    ensures PascalCase(PascalCase(v).value) == PascalCase(v)
  {
    var s := CamelCase(v);
    var t := CapitalizeFirst(s);
    CamelCaseIsCamel(v);
    IsCamelCapitalized(s);
    CamelFixedPoint(t);
    CapitalizeFirstIdempotent(s);
  }

  /** `pascalCase` keeps the letters and digits of its input, in order, up to their case. */
  lemma PascalCaseKeepsFolded(v: string)
    requires PascalCase(v).Success?
    ensures Folded(PascalCase(v).value) == Folded(v)
  {
    var s := CamelCase(v);
    CamelCaseKeepsFolded(v);
    assert s == [s[0]] + s[1..];
    FoldedCons(s[0], s[1..]);
    FoldedCons(Upper(s[0]), s[1..]);
  }

  /**
   * `upperFirst(v)`: the text of `v` with its first character upper-cased;
   * the empty text and undefined come back as they are.
   */
  function UpperFirst(dateText: DateStamp -> string, v: JsValue): (r: JsValue)
    ensures r == Undefined <==> IsAbsent(v)
    ensures !IsAbsent(v) ==> r.Str? && |r.s| == |ToStr(dateText, v)|
    ensures !IsAbsent(v) && ToStr(dateText, v) != [] ==>
      r.s[0] == Upper(ToStr(dateText, v)[0]) && r.s[1..] == ToStr(dateText, v)[1..]
  {
    var x := CoerceToString(dateText, v, Undefined);
    if x.Str? && x.s != [] then Str(CapitalizeFirst(x.s)) else x
  }

  /** `upperFirst` is idempotent. */
  lemma UpperFirstIdempotent(dateText: DateStamp -> string, v: JsValue)
    ensures UpperFirst(dateText, UpperFirst(dateText, v)) == UpperFirst(dateText, v)
  {
    var r := UpperFirst(dateText, v);
    if r.Str? && r.s != [] {
      CapitalizeFirstIdempotent(ToStr(dateText, v));
    }
  }

  lemma UpperFirstWord(dateText: DateStamp -> string)
    ensures UpperFirst(dateText, Str("any word")) == Str("Any word")
    ensures UpperFirst(dateText, Str("")) == Str("")
  {
    assert CapitalizeFirst("any word") == "Any word";
  }
}
