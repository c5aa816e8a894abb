/**
  The SQLite adapter's `toSqlite`: every maximal run of `$` followed by one or more decimal
  digits (a PostgreSQL positional parameter such as `$1` or `$12`) becomes a single `?`, and
  every other character is kept in order.

  Besides the rewriting function itself, the module gives an independent reading of the same
  rule: a statement is a sequence of `Piece`s (literal characters and placeholders), `Lex`
  is the unique well-formed decomposition of a statement, and `toSqlite` keeps the literal
  pieces while binding each placeholder to `?`.
*/
module Placeholders {
  import opened JsText

  /** A positional parameter starts here: `$` immediately followed by a digit. */
  predicate StartsPlaceholder(s: string) {
    |s| >= 2 && s[0] == '$' && IsDigit(s[1])
  }

  /** No `$` anywhere in `s` is immediately followed by a digit. */
  predicate NoPlaceholder(s: string) {
    forall i :: 0 <= i < |s| - 1 ==> !(s[i] == '$' && IsDigit(s[i + 1]))
  }

  /** Length of the run of digits at the front of `s`. */
  function DigitRun(s: string): (n: nat)
    ensures n <= |s|
    ensures forall i :: 0 <= i < n ==> IsDigit(s[i])
    ensures n == |s| || !IsDigit(s[n])
    decreases |s|
  {
    if |s| > 0 && IsDigit(s[0]) then 1 + DigitRun(s[1..]) else 0
  }

  /** `sql.replace(/\$\d+/g, '?')`. */
  function ToSqlite(s: string): (r: string)
    ensures |r| <= |s|
    ensures |s| > 0 ==> |r| > 0 && r[0] == (if StartsPlaceholder(s) then '?' else s[0])
    ensures NoPlaceholder(r)
    decreases |s|
  {
    if |s| == 0 then ""
    else if StartsPlaceholder(s) then "?" + ToSqlite(s[1 + DigitRun(s[1..])..])
    else [s[0]] + ToSqlite(s[1..])
  }

  /** A statement without parameters is left exactly as it is. */
  lemma {:induction false} ToSqliteKeepsPlain(s: string)
    requires NoPlaceholder(s)
    ensures ToSqlite(s) == s
    decreases |s|
  {
    if |s| > 0 {
      assert !StartsPlaceholder(s) by {
        if |s| >= 2 { assert !(s[0] == '$' && IsDigit(s[1])); }
      }
      assert NoPlaceholder(s[1..]) by {
        forall i | 0 <= i < |s[1..]| - 1
          ensures !(s[1..][i] == '$' && IsDigit(s[1..][i + 1]))
        {
          assert s[1..][i] == s[i + 1] && s[1..][i + 1] == s[i + 2];
        }
      }
      ToSqliteKeepsPlain(s[1..]);
      assert s == [s[0]] + s[1..];
    }
  }

  /** Every parameter that is rewritten makes the statement shorter. */
  lemma {:induction false} ToSqliteShrinks(s: string)
    requires !NoPlaceholder(s)
    ensures |ToSqlite(s)| < |s|
    decreases |s|
  {
    if StartsPlaceholder(s) {
      var n := DigitRun(s[1..]);
      assert n >= 1;
    } else {
      var i :| 0 <= i < |s| - 1 && s[i] == '$' && IsDigit(s[i + 1]);
      assert i != 0;
      assert s[1..][i - 1] == s[i] && s[1..][i] == s[i + 1];
      ToSqliteShrinks(s[1..]);
    }
  }

  /** The statements `toSqlite` leaves unchanged are exactly those without parameters. */
  lemma ToSqliteFixedPoints(s: string)
    ensures ToSqlite(s) == s <==> NoPlaceholder(s)
  {
    if NoPlaceholder(s) {
      ToSqliteKeepsPlain(s);
    } else {
      ToSqliteShrinks(s);
    }
  }

  /** Rewriting twice is the same as rewriting once. */
  lemma ToSqliteIdempotent(s: string)
    ensures ToSqlite(ToSqlite(s)) == ToSqlite(s)
  {
    ToSqliteKeepsPlain(ToSqlite(s));
  }

  /** One piece of a statement: a literal character or a positional parameter with its digits. */
  datatype Piece = Literal(c: char) | Param(digits: string)

  /** The text a sequence of pieces spells out. */
  function Unlex(ps: seq<Piece>): string
    decreases |ps|
  {
    if |ps| == 0 then ""
    else
      match ps[0]
      case Literal(c) => [c] + Unlex(ps[1..])
      case Param(d) => "$" + d + Unlex(ps[1..])
  }

  /** The text with every parameter bound to `?` and every literal kept. */
  function Bind(ps: seq<Piece>): string
    decreases |ps|
  {
    if |ps| == 0 then ""
    else
      match ps[0]
      case Literal(c) => [c] + Bind(ps[1..])
      case Param(_) => "?" + Bind(ps[1..])
  }

  /** Whether the piece could continue a digit run that precedes it. */
  predicate IsDigitLiteral(p: Piece) {
    p.Literal? && IsDigit(p.c)
  }

  /**
    A decomposition that matches the way the regular expression scans: every parameter has at
    least one digit and only digits, and neither a parameter nor a lone `$` is directly followed
    by a digit (such a digit would have been taken into a parameter).
  */
  predicate WellLexed(ps: seq<Piece>) {
    && (forall i :: 0 <= i < |ps| && ps[i].Param? ==>
          |ps[i].digits| > 0 && forall k :: 0 <= k < |ps[i].digits| ==> IsDigit(ps[i].digits[k]))
    && (forall i :: 0 <= i < |ps| - 1 && (ps[i].Param? || ps[i] == Literal('$')) ==> !IsDigitLiteral(ps[i + 1]))
  }

  /** The left-to-right, longest-match decomposition of a statement. */
  function Lex(s: string): (ps: seq<Piece>)
    ensures WellLexed(ps)
    ensures |s| > 0 ==> |ps| > 0 && ps[0] == (if StartsPlaceholder(s) then Param(s[1..1 + DigitRun(s[1..])]) else Literal(s[0]))
    decreases |s|
  {
    if |s| == 0 then []
    else if StartsPlaceholder(s) then
      var n := DigitRun(s[1..]);
      [Param(s[1..1 + n])] + Lex(s[1 + n..])
    else [Literal(s[0])] + Lex(s[1..])
  }

  /** Lexing loses nothing: the pieces spell out the statement. */
  lemma {:induction false} UnlexLex(s: string)
    ensures Unlex(Lex(s)) == s
    decreases |s|
  {
    if |s| > 0 {
      if StartsPlaceholder(s) {
        var n := DigitRun(s[1..]);
        UnlexLex(s[1 + n..]);
        assert Lex(s)[1..] == Lex(s[1 + n..]);
        assert s == "$" + s[1..1 + n] + s[1 + n..];
      } else {
        UnlexLex(s[1..]);
        assert Lex(s)[1..] == Lex(s[1..]);
        assert s == [s[0]] + s[1..];
      }
    }
  }

  /** The digit run of an all-digit prefix followed by a non-digit is that prefix. */
  lemma {:induction false} DigitRunOfDigits(d: string, t: string)
    requires forall k :: 0 <= k < |d| ==> IsDigit(d[k])
    requires |t| == 0 || !IsDigit(t[0])
    ensures DigitRun(d + t) == |d|
    decreases |d|
  {
    if |d| > 0 {
      assert (d + t)[1..] == d[1..] + t;
      DigitRunOfDigits(d[1..], t);
    } else {
      assert d + t == t;
    }
  }

  /** A suffix of a well-lexed decomposition is well lexed. */
  lemma WellLexedTail(ps: seq<Piece>)
    requires |ps| > 0 && WellLexed(ps)
    ensures WellLexed(ps[1..])
  {
    forall i | 0 <= i < |ps[1..]| - 1 && (ps[1..][i].Param? || ps[1..][i] == Literal('$'))
      ensures !IsDigitLiteral(ps[1..][i + 1])
    {
      assert ps[1..][i] == ps[i + 1] && ps[1..][i + 1] == ps[i + 2];
    }
  }

  /** The text of a non-empty decomposition starts with the text of its first piece. */
  lemma UnlexFirst(ps: seq<Piece>)
    requires |ps| > 0
    ensures |Unlex(ps)| > 0
    ensures Unlex(ps)[0] == (if ps[0].Param? then '$' else ps[0].c)
  {
  }

  /**
    Lexing is the only well-formed decomposition: any well-lexed sequence of pieces that spells
    `s` is `Lex(s)`. Together with `UnlexLex` this pins `Lex` down without reference to its code.
  */
  lemma {:induction false} LexUnique(ps: seq<Piece>, s: string)
    requires WellLexed(ps) && Unlex(ps) == s
    ensures ps == Lex(s)
    decreases |ps|
  {
    if |ps| > 0 {
      WellLexedTail(ps);
      var rest := Unlex(ps[1..]);
      // The character after the first piece is not a digit it could have absorbed.
      assert |ps| > 1 ==> !IsDigitLiteral(ps[1]) || (ps[0].Literal? && ps[0].c != '$');
      if |ps| > 1 {
        UnlexFirst(ps[1..]);
      }
      match ps[0]
      case Param(d) => {
        assert s == "$" + d + rest;
        assert |rest| == 0 || !IsDigit(rest[0]);
        assert s[1..] == d + rest;
        DigitRunOfDigits(d, rest);
        assert StartsPlaceholder(s) by { assert s[1] == d[0]; }
        assert s[1..1 + |d|] == d;
        assert s[1 + |d|..] == rest;
        LexUnique(ps[1..], rest);
        assert ps == [Param(d)] + ps[1..];
      }
      case Literal(c) => {
        assert s == [c] + rest;
        assert !StartsPlaceholder(s) by {
          if c == '$' && |s| >= 2 {
            assert |ps| > 1;
            assert s[1] == rest[0];
          }
        }
        assert s[1..] == rest;
        LexUnique(ps[1..], rest);
        assert ps == [Literal(c)] + ps[1..];
      }
    }
  }

  /** `toSqlite` keeps the literal pieces of the statement in order and binds each parameter to `?`. */
  lemma {:induction false} ToSqliteBindsPieces(s: string)
    ensures ToSqlite(s) == Bind(Lex(s))
    decreases |s|
  {
    if |s| > 0 {
      if StartsPlaceholder(s) {
        var n := DigitRun(s[1..]);
        ToSqliteBindsPieces(s[1 + n..]);
        assert Lex(s)[1..] == Lex(s[1 + n..]);
      } else {
        ToSqliteBindsPieces(s[1..]);
        assert Lex(s)[1..] == Lex(s[1..]);
      }
    }
  }

  /**
    The rule stated without `Lex`: whenever a statement is spelled by a well-formed sequence of
    pieces, `toSqlite` produces that sequence with each parameter bound to `?`.
  */
  lemma ToSqliteSpec(ps: seq<Piece>)
    requires WellLexed(ps)
    ensures ToSqlite(Unlex(ps)) == Bind(ps)
  {
    LexUnique(ps, Unlex(ps));
    ToSqliteBindsPieces(Unlex(ps));
  }
}
