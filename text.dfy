/**
 * The string operations the directory relies on: Python's `str.strip()` and
 * `str.split()` over the whitespace of a byte string, the character set allowed
 * in account and team names, and the byte-wise ordering SQLite applies to
 * `ORDER BY name`.
 */
module Text {

  /** Python 2 `str` whitespace: space, tab, newline, vertical tab, form feed, carriage return. */
  predicate IsSpace(c: char) {
    c == ' ' || '\t' <= c <= '\r'
  }

  predicate AllSpace(s: string) {
    forall i :: 0 <= i < |s| ==> IsSpace(s[i])
  }

  predicate NoSpace(s: string) {
    forall i :: 0 <= i < |s| ==> !IsSpace(s[i])
  }

  /** The first index from `i` on that holds whitespace, or `|s|`. */
  function WordEnd(s: string, i: nat): (k: nat)
    requires i <= |s|
    ensures i <= k <= |s|
    ensures forall m :: i <= m < k ==> !IsSpace(s[m])
    ensures k < |s| ==> IsSpace(s[k])
    decreases |s| - i
  {
    if i < |s| && !IsSpace(s[i]) then WordEnd(s, i + 1) else i
  }

  /** The first index from `i` on that holds no whitespace, or `|s|`. */
  function SpaceEnd(s: string, i: nat): (k: nat)
    requires i <= |s|
    ensures i <= k <= |s|
    ensures forall m :: i <= m < k ==> IsSpace(s[m])
    ensures k < |s| ==> !IsSpace(s[k])
    decreases |s| - i
  {
    if i < |s| && IsSpace(s[i]) then SpaceEnd(s, i + 1) else i
  }

  /** The start of the whitespace run that ends at `j`, not going below `lo`. */
  function SpaceStart(s: string, lo: nat, j: nat): (k: nat)
    requires lo <= j <= |s|
    ensures lo <= k <= j
    ensures forall m :: k <= m < j ==> IsSpace(s[m])
    ensures lo < k ==> !IsSpace(s[k - 1])
    decreases j
  {
    if lo < j && IsSpace(s[j - 1]) then SpaceStart(s, lo, j - 1) else j
  }

  /**
   * `s.strip()`: `s` without its leading and trailing whitespace. The result is
   * a contiguous piece of `s` with only whitespace around it, and it neither
   * starts nor ends with whitespace.
   */
  function Strip(s: string): (r: string)
    ensures |r| <= |s|
    ensures r == [] <==> AllSpace(s)
    ensures r != [] ==> !IsSpace(r[0]) && !IsSpace(r[|r| - 1])
    ensures exists i :: 0 <= i <= |s| - |r| && s[i..i + |r|] == r && AllSpace(s[..i]) && AllSpace(s[i + |r|..])
  {
    var i := SpaceEnd(s, 0);
    var j := SpaceStart(s, i, |s|);
    assert AllSpace(s[..i]) by {
      forall m | 0 <= m < i ensures IsSpace(s[..i][m]) {
        assert s[..i][m] == s[m];
      }
    }
    assert AllSpace(s[j..]) by {
      forall m | 0 <= m < |s| - j ensures IsSpace(s[j..][m]) {
        assert s[j..][m] == s[j + m];
      }
    }
    assert i == j <==> AllSpace(s) by {
      if i < |s| {
        assert !IsSpace(s[i]);
        assert !AllSpace(s);
      }
    }
    s[i..j]
  }

  /** `s.split()`: the maximal runs of non-whitespace characters of `s`, in order. */
  function Split(s: string): (w: seq<string>)
    ensures forall k :: 0 <= k < |w| ==> w[k] != [] && NoSpace(w[k])
    decreases |s|
  {
    var i := SpaceEnd(s, 0);
    if i == |s| then []
    else
      var j := WordEnd(s, i);
      assert NoSpace(s[i..j]) by {
        forall m | 0 <= m < j - i ensures !IsSpace(s[i..j][m]) {
          assert s[i..j][m] == s[i + m];
        }
      }
      [s[i..j]] + Split(s[j..])
  }

  /** A non-empty string without whitespace splits into itself alone. */
  lemma SplitSingle(s: string)
    requires s != [] && NoSpace(s)
    ensures Split(s) == [s]
  {
    assert SpaceEnd(s, 0) == 0 && WordEnd(s, 0) == |s|;
    assert s[0..|s|] == s;
    assert Split(s[|s|..]) == [];
  }

  /**
   * `len(s.split()) == 1` without unfolding the split: one run of
   * non-whitespace characters with only whitespace around it.
   */
  predicate OneWord(s: string) {
    exists i, j :: 0 <= i < j <= |s| && AllSpace(s[..i]) && NoSpace(s[i..j]) && AllSpace(s[j..])
  }

  /** A string splits into no words exactly when it is all whitespace. */
  lemma SplitNone(s: string)
    ensures Split(s) == [] <==> AllSpace(s)
  {
    var i := SpaceEnd(s, 0);
    if i < |s| {
      assert !IsSpace(s[i]);
    } else {
      assert forall m :: 0 <= m < |s| ==> IsSpace(s[m]);
    }
  }

  /** `OneWord` is exactly Python's `len(s.split()) == 1`. */
  lemma {:induction false} OneWordSplit(s: string)
    ensures OneWord(s) <==> |Split(s)| == 1
  {
    var i := SpaceEnd(s, 0);
    if i == |s| {
      SplitNone(s);
      AllSpaceNoWord(s);
    } else {
      var j := WordEnd(s, i);
      FirstWord(s, i, j);
      SplitNone(s[j..]);
      OnlyWord(s, i, j);
    }
  }

  /** Whitespace alone holds no word. */
  lemma AllSpaceNoWord(s: string)
    requires AllSpace(s)
    ensures !OneWord(s)
  {
    forall a, b | 0 <= a < b <= |s| ensures !NoSpace(s[a..b]) {
      assert s[a..b][0] == s[a];
    }
  }

  /** `Split` takes the first run of non-whitespace characters, then splits the rest. */
  lemma FirstWord(s: string, i: nat, j: nat)
    requires i == SpaceEnd(s, 0) && i < |s| && j == WordEnd(s, i)
    ensures i < j && Split(s) == [s[i..j]] + Split(s[j..])
  {
  }

  /** The slices `OneWord` speaks of, stated index by index. */
  lemma Pieces(s: string, a: nat, b: nat)
    requires a <= b <= |s|
    ensures AllSpace(s[..a]) <==> forall m :: 0 <= m < a ==> IsSpace(s[m])
    ensures NoSpace(s[a..b]) <==> forall m :: a <= m < b ==> !IsSpace(s[m])
    ensures AllSpace(s[b..]) <==> forall m :: b <= m < |s| ==> IsSpace(s[m])
  {
    assert forall m :: 0 <= m < a ==> s[..a][m] == s[m];
    assert forall m :: a <= m < b ==> s[a..b][m - a] == s[m];
    assert forall m :: b <= m < |s| ==> s[b..][m - b] == s[m];
  }

  /** With the first word found, `s` is one word exactly when only whitespace follows it. */
  lemma OnlyWord(s: string, i: nat, j: nat)
    requires i == SpaceEnd(s, 0) && i < |s| && j == WordEnd(s, i)
    ensures OneWord(s) <==> AllSpace(s[j..])
  {
    forall a, b | 0 <= a < b <= |s| && AllSpace(s[..a]) && NoSpace(s[a..b]) && AllSpace(s[b..])
      ensures AllSpace(s[j..])
    {
      Pieces(s, a, b);
      OneWordBounds(s, i, j, a, b);
    }
    if AllSpace(s[j..]) {
      Pieces(s, i, j);
      assert 0 <= i < j <= |s| && AllSpace(s[..i]) && NoSpace(s[i..j]) && AllSpace(s[j..]);
    }
  }

  /** The run `OneWord` names is the one `Split` finds. */
  lemma OneWordBounds(s: string, i: nat, j: nat, a: nat, b: nat)
    requires i == SpaceEnd(s, 0) && i < |s| && j == WordEnd(s, i)
    requires 0 <= a < b <= |s|
    requires forall m :: 0 <= m < a ==> IsSpace(s[m])
    requires forall m :: a <= m < b ==> !IsSpace(s[m])
    requires forall m :: b <= m < |s| ==> IsSpace(s[m])
    ensures a == i && b == j
  {
    assert !IsSpace(s[a]);
    assert a == i;
    assert b < |s| ==> IsSpace(s[b]);
  }

  /** `string.letters + string.digits + '-_.'` under the C locale. */
  predicate AllowedChar(c: char) {
    'a' <= c <= 'z' || 'A' <= c <= 'Z' || '0' <= c <= '9' || c == '-' || c == '_' || c == '.'
  }

  /** `set(name).difference(allowed)` is empty. */
  predicate AllowedChars(s: string) {
    forall i :: 0 <= i < |s| ==> AllowedChar(s[i])
  }

  /** A name made of allowed characters only is a single word: `save` accepts it. */
  lemma AllowedIsOneWord(s: string)
    requires s != [] && AllowedChars(s)
    ensures Split(s) == [s] && OneWord(s)
  {
    assert NoSpace(s) by {
      forall i | 0 <= i < |s| ensures !IsSpace(s[i]) {
        assert AllowedChar(s[i]);
      }
    }
    SplitSingle(s);
    assert s[..0] == [] && s[0..|s|] == s && s[|s|..] == [];
  }

  /** Byte-wise lexicographic order, SQLite's BINARY collation. */
  predicate Below(a: string, b: string)
  {
    if |b| == 0 then false
    else if |a| == 0 then true
    else if a[0] != b[0] then a[0] < b[0]
    else Below(a[1..], b[1..])
  }

  lemma {:induction false} BelowIrreflexive(a: string)
    ensures !Below(a, a)
  {
    if |a| > 0 { BelowIrreflexive(a[1..]); }
  }

  lemma {:induction false} BelowTransitive(a: string, b: string, c: string)
    requires Below(a, b) && Below(b, c)
    ensures Below(a, c)
  {
    if |a| > 0 && a[0] == b[0] && b[0] == c[0] {
      BelowTransitive(a[1..], b[1..], c[1..]);
    }
  }

  lemma {:induction false} BelowTotal(a: string, b: string)
    ensures a == b || Below(a, b) || Below(b, a)
  {
    if |a| > 0 && |b| > 0 && a[0] == b[0] {
      BelowTotal(a[1..], b[1..]);
      if a[1..] == b[1..] {
        assert a == [a[0]] + a[1..] && b == [b[0]] + b[1..];
      }
    }
  }

  /** Strictly ascending in SQLite's order, hence also free of repetitions. */
  predicate Ascending(r: seq<string>) {
    forall i, j :: 0 <= i < j < |r| ==> Below(r[i], r[j])
  }

  /** The least name of a non-empty set. */
  method Least(s: set<string>) returns (m: string)
    requires s != {}
    ensures m in s
    ensures forall x :: x in s && x != m ==> Below(m, x)
  {
    m :| m in s;
    var todo := s - {m};
    while todo != {}
      invariant todo <= s && m in s && m !in todo
      invariant forall x :: x in s - todo && x != m ==> Below(m, x)
      decreases todo
    {
      var y :| y in todo;
      if Below(y, m) {
        forall x | x in s - todo && x != y ensures Below(y, x) {
          if x != m { BelowTransitive(y, m, x); }
        }
        m := y;
      } else {
        BelowTotal(y, m);
      }
      todo := todo - {y};
    }
  }

  /** The names of `s` in ascending order: the rows of `SELECT name ... ORDER BY name`. */
  method SortNames(s: set<string>) returns (r: seq<string>)
    ensures Ascending(r)
    ensures forall x :: x in r <==> x in s
    ensures |r| == |s|
  {
    r := [];
    var rest := s;
    while rest != {}
      invariant rest <= s
      invariant forall x :: x in r <==> x in s - rest
      invariant |r| + |rest| == |s|
      invariant Ascending(r)
      invariant forall i, x :: 0 <= i < |r| && x in rest ==> Below(r[i], x)
      decreases rest
    {
      var m := Least(rest);
      forall i, j | 0 <= i < j < |r + [m]| ensures Below((r + [m])[i], (r + [m])[j]) {
        if j == |r| { assert (r + [m])[j] == m; }
      }
      r := r + [m];
      rest := rest - {m};
    }
    assert forall x :: x in r <==> x in s;
  }
}
