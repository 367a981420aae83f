/** The rewrite of positional `?` placeholders into SQL Server named
    parameters `@p1`, `@p2`, ... that both SQL commands apply before handing
    the text to the driver. `db.rs` does it as `n` passes of
    `replacen('?', "@p{i}", 1)`; `Rewrite` keeps that pass structure, and
    `Numbered` is an independent one-pass reading of the same text, left to
    right, that the lemmas prove equal to it. A `?` inside a quoted literal
    is rewritten like any other. */
module Placeholders {
  import Decimal

  /** Number of occurrences of `c` in `s`. */
  function Count(s: string, c: char): nat
  {
    if |s| == 0 then 0 else (if s[0] == c then 1 else 0) + Count(s[1..], c)
  }

  lemma {:induction false} CountAppend(a: string, b: string, c: char)
    ensures Count(a + b, c) == Count(a, c) + Count(b, c)
  {
    if |a| == 0 {
      assert a + b == b;
    } else {
      assert (a + b)[1..] == a[1..] + b;
      CountAppend(a[1..], b, c);
    }
  }

  lemma {:induction false} CountAbsent(s: string, c: char)
    requires c !in s
    ensures Count(s, c) == 0
  {
    if |s| > 0 {
      assert s[0] != c;
      CountAbsent(s[1..], c);
    }
  }

  /** Position of the first `c` in `s`. */
  function IndexOf(s: string, c: char): (k: nat)
    requires c in s
    ensures k < |s| && s[k] == c
    ensures c !in s[..k]
  {
    if s[0] == c then 0
    else
      var k := 1 + IndexOf(s[1..], c);
      assert s[..k] == [s[0]] + s[1..][..k - 1];
      k
  }

  /** Rust's `s.replacen(c, rep, 1)`: the first `c`, if any, becomes `rep`. */
  function ReplaceFirst(s: string, c: char, rep: string): string
  {
    if |s| == 0 then s
    else if s[0] == c then rep + s[1..]
    else [s[0]] + ReplaceFirst(s[1..], c, rep)
  }

  /** Text without `c` is left unchanged. */
  lemma {:induction false} ReplaceFirstAbsent(s: string, c: char, rep: string)
    requires c !in s
    ensures ReplaceFirst(s, c, rep) == s
  {
    if |s| > 0 {
      assert s[0] != c && c !in s[1..];
      ReplaceFirstAbsent(s[1..], c, rep);
      assert s == [s[0]] + s[1..];
    }
  }

  /** Where `c` occurs, exactly its first occurrence is replaced and the rest
      of the text is kept on both sides. */
  lemma {:induction false} ReplaceFirstAt(s: string, c: char, rep: string)
    requires c in s
    ensures ReplaceFirst(s, c, rep) == s[..IndexOf(s, c)] + rep + s[IndexOf(s, c) + 1..]
  {
    if s[0] == c {
      assert s[..0] == [];
    } else {
      var t := s[1..];
      var k' := IndexOf(t, c);
      ReplaceFirstAt(t, c, rep);
      assert IndexOf(s, c) == k' + 1;
      assert s[..k' + 1] == [s[0]] + t[..k'];
      assert s[k' + 2..] == t[k' + 1..];
    }
  }

  /** The named parameter for position `i`: `@p` followed by `i` in decimal. */
  function Placeholder(i: nat): string
  {
    "@p" + Decimal.Show(i)
  }

  /** The name holds no `?`, so a later pass cannot consume it. */
  lemma PlaceholderNoMark(i: nat)
    ensures '?' !in Placeholder(i)
  {
  }

  /** The name is `@p` followed by digits that read back as `i`. */
  lemma PlaceholderForm(i: nat)
    ensures |Placeholder(i)| >= 3 && Placeholder(i)[0] == '@' && Placeholder(i)[1] == 'p'
    ensures forall j :: 2 <= j < |Placeholder(i)| ==> Decimal.IsDigit(Placeholder(i)[j])
    ensures Decimal.Parse(Placeholder(i)[2..]) == i
  {
    Decimal.ParseShow(i);
    assert Placeholder(i)[2..] == Decimal.Show(i);
  }

  lemma PlaceholderInjective(i: nat, j: nat)
    requires Placeholder(i) == Placeholder(j)
    ensures i == j
  {
    PlaceholderForm(i);
    PlaceholderForm(j);
  }

  /** The Rust loop: pass `i` (from 1 to `n`) replaces the first `?` of the
      current text with `Placeholder(i)`. */
  function RewriteFrom(s: string, i: nat, n: nat): string
    decreases n + 1 - i
  {
    if i > n then s else RewriteFrom(ReplaceFirst(s, '?', Placeholder(i)), i + 1, n)
  }

  /** The SQL text after the rewrite loop for `n` parameters. */
  function Rewrite(sql: string, n: nat): string
  {
    RewriteFrom(sql, 1, n)
  }

  /** The counter after reading character `x` with counter `c`. */
  function Next(x: char, c: nat, n: nat): nat
  {
    if x == '?' && c <= n then c + 1 else c
  }

  /** What character `x` is written as when read with counter `c`. */
  function Step(x: char, c: nat, n: nat): string
  {
    if x == '?' && c <= n then Placeholder(c) else [x]
  }

  /** Reference reading: scan left to right with counter `c`; while `c <= n`
      each `?` met becomes `Placeholder(c)` and the counter advances; every
      other character, and every `?` met after the counter passes `n`, is
      copied. */
  function Numbered(s: string, c: nat, n: nat): string
  {
    if |s| == 0 then [] else Step(s[0], c, n) + Numbered(s[1..], Next(s[0], c, n), n)
  }

  /** Once the counter is past `n` nothing changes. */
  lemma {:induction false} NumberedPast(s: string, c: nat, n: nat)
    requires c > n
    ensures Numbered(s, c, n) == s
  {
    if |s| > 0 {
      NumberedPast(s[1..], c, n);
      assert s == [s[0]] + s[1..];
    }
  }

  /** Text without a `?` is copied. */
  lemma {:induction false} NumberedNoMark(s: string, c: nat, n: nat)
    requires '?' !in s
    ensures Numbered(s, c, n) == s
  {
    if |s| > 0 {
      NumberedNoMark(s[1..], c, n);
      assert s == [s[0]] + s[1..];
    }
  }

  /** The counter once the scan has read all of `s`. */
  function After(s: string, c: nat, n: nat): nat
  {
    if |s| == 0 then c else After(s[1..], Next(s[0], c, n), n)
  }

  /** Starting at most one past `n`, the counter advances once per `?` and
      stops one past `n`. */
  lemma {:induction false} AfterIs(s: string, c: nat, n: nat)
    requires c <= n + 1
    ensures After(s, c, n) == if c + Count(s, '?') <= n + 1 then c + Count(s, '?') else n + 1
  {
    if |s| > 0 {
      AfterIs(s[1..], if s[0] == '?' && c <= n then c + 1 else c, n);
      if s[0] == '?' && c > n {
        assert c == n + 1;
      }
    }
  }

  /** The scan of a concatenation is the scan of each part, the second
      starting with the counter the first left. */
  lemma {:induction false} NumberedAppend(a: string, b: string, c: nat, n: nat)
    ensures Numbered(a + b, c, n) == Numbered(a, c, n) + Numbered(b, After(a, c, n), n)
  {
    if |a| == 0 {
      assert a + b == b;
    } else {
      var ab := a + b;
      assert ab[0] == a[0] && ab[1..] == a[1..] + b;
      NumberedAppend(a[1..], b, Next(a[0], c, n), n);
    }
  }

  /** Replacing the first `?` commutes with a prefix that has none. */
  lemma {:induction false} ReplaceFirstAfter(p: string, t: string, rep: string)
    requires '?' !in p
    ensures ReplaceFirst(p + t, '?', rep) == p + ReplaceFirst(t, '?', rep)
  {
    if |p| == 0 {
      assert p + t == t;
    } else {
      assert (p + t)[0] == p[0] != '?';
      assert (p + t)[1..] == p[1..] + t;
      assert ReplaceFirst(p + t, '?', rep) == [p[0]] + ReplaceFirst(p[1..] + t, '?', rep);
      assert '?' !in p[1..];
      ReplaceFirstAfter(p[1..], t, rep);
      assert p == [p[0]] + p[1..];
    }
  }

  /** One more pass of the Rust loop turns the scan for `m` parameters into
      the scan for `m + 1`: the text's first `?` is the next original one,
      because the inserted placeholders hold none. */
  lemma {:induction false} PassStep(s: string, c: nat, m: nat)
    requires c <= m + 1
    ensures ReplaceFirst(Numbered(s, c, m), '?', Placeholder(m + 1)) == Numbered(s, c, m + 1)
  {
    if |s| > 0 {
      var t := s[1..];
      var p := Placeholder(m + 1);
      if s[0] == '?' && c <= m {
        var done := Numbered(t, c + 1, m);
        assert Numbered(s, c, m) == Placeholder(c) + done;
        assert Numbered(s, c, m + 1) == Placeholder(c) + Numbered(t, c + 1, m + 1);
        PlaceholderNoMark(c);
        ReplaceFirstAfter(Placeholder(c), done, p);
        PassStep(t, c + 1, m);
      } else if s[0] == '?' {
        NumberedPast(t, c, m);
        NumberedPast(t, c + 1, m + 1);
        assert Numbered(s, c, m) == ['?'] + t;
        assert Numbered(s, c, m + 1) == p + t;
        assert (['?'] + t)[0] == '?' && (['?'] + t)[1..] == t;
      } else {
        var rest := Numbered(t, c, m);
        assert Numbered(s, c, m) == [s[0]] + rest;
        assert Numbered(s, c, m + 1) == [s[0]] + Numbered(t, c, m + 1);
        ReplaceFirstAfter([s[0]], rest, p);
        PassStep(t, c, m);
      }
    }
  }

  lemma {:induction false} RewriteFromNumbered(sql: string, i: nat, n: nat)
    requires 1 <= i <= n + 1
    ensures RewriteFrom(Numbered(sql, 1, i - 1), i, n) == Numbered(sql, 1, n)
    decreases n + 1 - i
  {
    if i <= n {
      PassStep(sql, 1, i - 1);
      RewriteFromNumbered(sql, i + 1, n);
    }
  }

  /** The pass-by-pass loop equals the left-to-right scan. */
  lemma RewriteIsNumbered(sql: string, n: nat)
    ensures Rewrite(sql, n) == Numbered(sql, 1, n)
  {
    NumberedPast(sql, 1, 0);
    RewriteFromNumbered(sql, 1, n);
  }

  /** With no parameters the text is unchanged. */
  lemma RewriteNoParams(sql: string)
    ensures Rewrite(sql, 0) == sql
  {
  }

  /** Text without `?` is unchanged whatever the number of parameters. */
  lemma RewriteNoMarks(sql: string, n: nat)
    requires '?' !in sql
    ensures Rewrite(sql, n) == sql
  {
    RewriteIsNumbered(sql, n);
    NumberedNoMark(sql, 1, n);
  }

  /** The `i`-th `?` of the original text, counted from the left, becomes
      `@p<i>` when `i <= n`; the text before it is rewritten as on its own,
      and the scan continues after it with counter `i + 1`. */
  lemma RewriteIthMark(a: string, b: string, i: nat, n: nat)
    requires Count(a, '?') == i - 1
    requires 1 <= i <= n
    ensures Rewrite(a + ['?'] + b, n) == Rewrite(a, n) + Placeholder(i) + Numbered(b, i + 1, n)
  {
    var m := ['?'] + b;
    assert a + ['?'] + b == a + m;
    RewriteIsNumbered(a + m, n);
    RewriteIsNumbered(a, n);
    NumberedAppend(a, m, 1, n);
    AfterIs(a, 1, n);
    assert m[0] == '?' && m[1..] == b;
    assert Numbered(m, i, n) == Placeholder(i) + Numbered(b, i + 1, n);
  }

  /** A `?` with `n` or more `?`s before it, and everything after it, is left
      as it was. */
  lemma RewriteMarkBeyond(a: string, b: string, n: nat)
    requires Count(a, '?') >= n
    ensures Rewrite(a + ['?'] + b, n) == Rewrite(a, n) + ['?'] + b
  {
    var m := ['?'] + b;
    assert a + ['?'] + b == a + m;
    RewriteIsNumbered(a + m, n);
    RewriteIsNumbered(a, n);
    NumberedAppend(a, m, 1, n);
    AfterIs(a, 1, n);
    NumberedPast(m, n + 1, n);
  }

  lemma {:induction false} NumberedCount(s: string, c: nat, n: nat)
    requires 1 <= c <= n + 1
    ensures Count(Numbered(s, c, n), '?') == if Count(s, '?') <= n + 1 - c then 0 else Count(s, '?') - (n + 1 - c)
  {
    if |s| > 0 {
      if s[0] == '?' && c <= n {
        NumberedCount(s[1..], c + 1, n);
        CountAppend(Placeholder(c), Numbered(s[1..], c + 1, n), '?');
        PlaceholderNoMark(c);
        CountAbsent(Placeholder(c), '?');
      } else {
        NumberedCount(s[1..], c, n);
        CountAppend([s[0]], Numbered(s[1..], c, n), '?');
        if s[0] == '?' {
          NumberedPast(s[1..], c, n);
        }
      }
    }
  }

  /** With `k` `?`s and `n` parameters, `max(0, k - n)` `?`s survive: the
      passes beyond the `k`-th find nothing to replace. */
  lemma RewriteRemainingMarks(sql: string, n: nat)
    ensures Count(Rewrite(sql, n), '?') == if Count(sql, '?') <= n then 0 else Count(sql, '?') - n
  {
    RewriteIsNumbered(sql, n);
    NumberedCount(sql, 1, n);
  }
}
