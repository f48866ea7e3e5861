/**
 * The DIMACS CNF parser (parse_dimacs): comment lines are dropped, the rest is
 * split into whitespace-separated tokens, the first four tokens must be the
 * header `p cnf <vars> <clauses>`, every later token must be a literal within
 * the declared variable range, and the literal stream is cut at each `0` into
 * clauses whose number must match the header.
 *
 * The reader is modelled by the sequence of lines it yields.
 */
module Parser {
  import opened Formula

  datatype ParseError =
    | InvalidHeader         // fewer than four tokens, or not `p cnf ...`
    | InvalidNumVars        // the variable count is not a u32 numeral
    | InvalidNumClauses     // the clause count is not a u32 numeral
    | InvalidLiteral        // a later token is not an i32 numeral within range
    | IncorrectClauseCount  // the number of clauses differs from the header

  datatype Result<+T> = Ok(value: T) | Err(error: ParseError)

  // ---------------------------------------------------------------------------
  // Maximal runs: the common shape of split_whitespace and of chunk_by on 0.
  // ---------------------------------------------------------------------------

  /** Length of the longest prefix of `s` that holds no separator. */
  function RunLength<T>(s: seq<T>, sep: T -> bool): (n: nat)
    ensures n <= |s|
    ensures forall i :: 0 <= i < n ==> !sep(s[i])
    ensures n < |s| ==> sep(s[n])
  {
    if s == [] || sep(s[0]) then 0 else 1 + RunLength(s[1..], sep)
  }

  /**
   * The maximal runs of non-separator elements of `s`, in order. Separators
   * never produce an empty run, however many of them stand together.
   */
  function SplitRuns<T>(s: seq<T>, sep: T -> bool): (runs: seq<seq<T>>)
    ensures forall r :: r in runs ==> |r| > 0 && forall x :: x in r ==> !sep(x)
    decreases |s|
  {
    if s == [] then []
    else if sep(s[0]) then SplitRuns(s[1..], sep)
    else
      var n := RunLength(s, sep);
      [s[..n]] + SplitRuns(s[n..], sep)
  }

  function Concat<T>(runs: seq<seq<T>>): seq<T>
  {
    if runs == [] then [] else runs[0] + Concat(runs[1..])
  }

  /** The elements of `s` that are not separators, in order. */
  function Keep<T>(s: seq<T>, sep: T -> bool): seq<T>
  {
    if s == [] then [] else (if sep(s[0]) then [] else [s[0]]) + Keep(s[1..], sep)
  }

  /** Each run followed by one separator `z`: the form a DIMACS body is written in. */
  function JoinRuns<T>(runs: seq<seq<T>>, z: T): seq<T>
  {
    if runs == [] then [] else runs[0] + [z] + JoinRuns(runs[1..], z)
  }

  lemma {:induction false} KeepAppend<T>(s: seq<T>, t: seq<T>, sep: T -> bool)
    ensures Keep(s + t, sep) == Keep(s, sep) + Keep(t, sep)
  {
    if s != [] {
      assert (s + t)[1..] == s[1..] + t;
      KeepAppend(s[1..], t, sep);
    } else {
      assert s + t == t;
    }
  }

  lemma {:induction false} KeepNoSeparator<T>(s: seq<T>, sep: T -> bool)
    requires forall i :: 0 <= i < |s| ==> !sep(s[i])
    ensures Keep(s, sep) == s
  {
    if s != [] {
      KeepNoSeparator(s[1..], sep);
    }
  }

  /** Splitting loses exactly the separators: the runs, concatenated, are the non-separators in order. */
  lemma {:induction false} SplitRunsKeepsOrder<T>(s: seq<T>, sep: T -> bool)
    ensures Concat(SplitRuns(s, sep)) == Keep(s, sep)
    decreases |s|
  {
    if s == [] {
    } else if sep(s[0]) {
      SplitRunsKeepsOrder(s[1..], sep);
    } else {
      var n := RunLength(s, sep);
      SplitRunsKeepsOrder(s[n..], sep);
      assert s == s[..n] + s[n..];
      KeepAppend(s[..n], s[n..], sep);
      KeepNoSeparator(s[..n], sep);
      var runs := SplitRuns(s, sep);
      assert runs[0] == s[..n] && runs[1..] == SplitRuns(s[n..], sep);
    }
  }

  lemma {:induction false} RunLengthOfJoin<T>(r: seq<T>, z: T, rest: seq<T>, sep: T -> bool)
    requires forall x :: x in r ==> !sep(x)
    requires sep(z)
    ensures RunLength(r + [z] + rest, sep) == |r|
  {
    if r != [] {
      assert r[0] in r;
      assert (r + [z] + rest)[1..] == r[1..] + [z] + rest;
      RunLengthOfJoin(r[1..], z, rest, sep);
    }
  }

  /** Splitting inverts joining: runs written with a separator after each are read back unchanged. */
  lemma {:induction false} SplitJoinRoundTrip<T>(runs: seq<seq<T>>, z: T, sep: T -> bool)
    requires sep(z)
    requires forall r :: r in runs ==> |r| > 0 && forall x :: x in r ==> !sep(x)
    ensures SplitRuns(JoinRuns(runs, z), sep) == runs
  {
    if runs != [] {
      var r := runs[0];
      assert r in runs;
      assert forall x :: x in r ==> !sep(x);
      assert JoinRuns(runs, z) == r + [z] + JoinRuns(runs[1..], z);
      SplitRunsAfterRun(r, z, JoinRuns(runs[1..], z), sep);
      assert forall q :: q in runs[1..] ==> q in runs;
      SplitJoinRoundTrip(runs[1..], z, sep);
      assert [r] + runs[1..] == runs;
    }
  }

  // ---------------------------------------------------------------------------
  // Lines and tokens.
  // ---------------------------------------------------------------------------

  /** The characters Rust's split_whitespace splits on (Unicode White_Space). */
  predicate IsWhitespace(ch: char)
  {
    var c := ch as int;
    (9 <= c <= 13) || c == 32 || c == 0x85 || c == 0xA0 || c == 0x1680 ||
    (0x2000 <= c <= 0x200A) || c == 0x2028 || c == 0x2029 || c == 0x202F ||
    c == 0x205F || c == 0x3000
  }

  function SplitWhitespace(line: string): seq<string>
  {
    SplitRuns(line, IsWhitespace)
  }

  /** A comment line starts with the character `c`. */
  predicate IsComment(line: string)
  {
    |line| > 0 && line[0] == 'c'
  }

  /** The token stream: the whitespace-separated words of every non-comment line, in order. */
  function Tokens(lines: seq<string>): seq<string>
  {
    if lines == [] then []
    else (if IsComment(lines[0]) then [] else SplitWhitespace(lines[0])) + Tokens(lines[1..])
  }

  /** A comment line contributes no tokens, wherever it stands. */
  lemma {:induction false} CommentLineIgnored(before: seq<string>, comment: string, after: seq<string>)
    requires IsComment(comment)
    ensures Tokens(before + [comment] + after) == Tokens(before + after)
  {
    if before == [] {
      assert before + [comment] + after == [comment] + after;
      assert ([comment] + after)[1..] == after;
      assert before + after == after;
    } else {
      assert (before + [comment] + after)[0] == before[0];
      assert (before + [comment] + after)[1..] == before[1..] + [comment] + after;
      assert (before + after)[1..] == before[1..] + after;
      CommentLineIgnored(before[1..], comment, after);
    }
  }

  // ---------------------------------------------------------------------------
  // Numerals (Rust's str::parse for u32 and i32).
  // ---------------------------------------------------------------------------

  predicate IsDigit(ch: char)
  {
    '0' <= ch <= '9'
  }

  predicate AllDigits(s: string)
  {
    forall i :: 0 <= i < |s| ==> IsDigit(s[i])
  }

  function DigitsValue(s: string): nat
    requires AllDigits(s)
  {
    if s == [] then 0
    else DigitsValue(s[..|s| - 1]) * 10 + (s[|s| - 1] as int - '0' as int)
  }

  const U32_LIMIT: int := 0x1_0000_0000
  const I32_MIN: int := -0x8000_0000
  const I32_MAX: int := 0x7FFF_FFFF

  /**
   * u32::from_str: an optional leading `+`, then one or more ASCII digits,
   * with a value below 2^32. A lone sign, a `-`, or the empty string fails.
   */
  function ParseU32(s: string): (r: Option<nat>)
    ensures r.Some? ==> r.value < U32_LIMIT
  {
    if s == [] || s == "+" || s == "-" then None
    else
      var ds := if s[0] == '+' then s[1..] else s;
      if AllDigits(ds) && DigitsValue(ds) < U32_LIMIT then Some(DigitsValue(ds)) else None
  }

  /**
   * i32::from_str: an optional leading `+` or `-`, then one or more ASCII
   * digits, with a value in -2^31..2^31-1.
   */
  function ParseI32(s: string): (r: Option<int>)
    ensures r.Some? ==> I32_MIN <= r.value <= I32_MAX
  {
    if s == [] || s == "+" || s == "-" then None
    else
      var negative := s[0] == '-';
      var ds := if s[0] == '+' || s[0] == '-' then s[1..] else s;
      if !AllDigits(ds) then None
      else
        var m: int := DigitsValue(ds);
        var x := if negative then -m else m;
        if I32_MIN <= x <= I32_MAX then Some(x) else None
  }

  function Abs(x: int): nat
  {
    if x < 0 then -x else x
  }

  /** A body token is acceptable when it is an i32 numeral whose magnitude is at most num_vars. */
  predicate ValidLiteralToken(t: string, numVars: nat)
  {
    ParseI32(t).Some? && Abs(ParseI32(t).value) <= numVars
  }

  /** A non-zero numeral names the literal on variable |x| that is true iff x > 0. */
  function LitOf(x: int): (l: Lit)
    requires x != 0
    ensures l.v > 0 && Num(l) == x
  {
    Lit(Abs(x), x > 0)
  }

  /** The numeral that denotes a literal in DIMACS. */
  function Num(l: Lit): int
  {
    if l.value then l.v else -(l.v as int)
  }

  /** LitOf inverts Num on every literal with a positive variable: the literal encoding is a bijection. */
  lemma LitNumRoundTrip(l: Lit)
    requires l.v > 0
    ensures Num(l) != 0 && LitOf(Num(l)) == l
  {
  }

  predicate IsZero(x: int)
  {
    x == 0
  }

  function Nums(body: seq<string>, numVars: nat): (r: seq<int>)
    requires forall t :: t in body ==> ValidLiteralToken(t, numVars)
    ensures |r| == |body|
    ensures forall i :: 0 <= i < |r| ==> Abs(r[i]) <= numVars
  {
    if body == [] then []
    else
      assert body[0] in body && forall t :: t in body[1..] ==> t in body;
      assert ValidLiteralToken(body[0], numVars);
      [ParseI32(body[0]).value] + Nums(body[1..], numVars)
  }

  function ClauseOf(run: seq<int>): (c: Clause)
    requires forall x :: x in run ==> x != 0
  {
    Clause(seq(|run|, j requires 0 <= j < |run| => assert run[j] in run; LitOf(run[j])))
  }

  function ClausesOf(runs: seq<seq<int>>): seq<Clause>
    requires forall r :: r in runs ==> forall x :: x in r ==> x != 0
  {
    seq(|runs|, i requires 0 <= i < |runs| => assert runs[i] in runs; ClauseOf(runs[i]))
  }

  /** The clauses of a header-checked, literal-checked body: maximal runs of non-zero literals. */
  function BodyClauses(body: seq<string>, numVars: nat): (cs: seq<Clause>)
    requires forall t :: t in body ==> ValidLiteralToken(t, numVars)
  {
    var runs := SplitRuns(Nums(body, numVars), IsZero);
    ClausesOf(runs)
  }

  /** The parser on the token stream, with the source's order of checks. */
  function ParseTokens(toks: seq<string>): (r: Result<CnfFormula>)
    ensures r.Err? && r.error == InvalidHeader <==> |toks| < 4 || toks[0] != "p" || toks[1] != "cnf"
    ensures r.Ok? ==>
      && |toks| >= 4 && toks[0] == "p" && toks[1] == "cnf"
      && ParseU32(toks[2]) == Some(r.value.numVars)
      && ParseU32(toks[3]) == Some(|r.value.clauses|)
      && (forall t :: t in toks[4..] ==> ValidLiteralToken(t, r.value.numVars))
      && r.value.clauses == BodyClauses(toks[4..], r.value.numVars)
  {
    if |toks| < 4 || toks[0] != "p" || toks[1] != "cnf" then Err(InvalidHeader)
    else match ParseU32(toks[2]) {
      case None => Err(InvalidNumVars)
      case Some(numVars) =>
        match ParseU32(toks[3]) {
          case None => Err(InvalidNumClauses)
          case Some(expected) =>
            var body := toks[4..];
            if !(forall t :: t in body ==> ValidLiteralToken(t, numVars)) then Err(InvalidLiteral)
            else
              var clauses := BodyClauses(body, numVars);
              if |clauses| != expected then Err(IncorrectClauseCount)
              else Ok(CnfFormula(numVars, clauses))
        }
    }
  }

  /** parse_dimacs on the lines the reader yields. */
  function ParseDimacs(lines: seq<string>): (r: Result<CnfFormula>)
    ensures r.Ok? ==> WellFormed(r.value) && forall c :: c in r.value.clauses ==> |c.literals| > 0
  {
    var r := ParseTokens(Tokens(lines));
    if r.Ok? then
      ParsedWellFormed(Tokens(lines));
      r
    else r
  }

  /** A body token outside the variable range rejects the whole input, whatever else it holds. */
  lemma InvalidLiteralRejects(toks: seq<string>, numVars: nat, k: nat)
    requires |toks| >= 4 && toks[0] == "p" && toks[1] == "cnf"
    requires ParseU32(toks[2]) == Some(numVars) && ParseU32(toks[3]).Some?
    requires 4 <= k < |toks| && !ValidLiteralToken(toks[k], numVars)
    ensures ParseTokens(toks) == Err(InvalidLiteral)
  {
    assert toks[k] in toks[4..];
  }

  /** Every parsed clause is non-empty, names only declared variables, and the formula is well formed. */
  lemma ParsedWellFormed(toks: seq<string>)
    requires ParseTokens(toks).Ok?
    ensures var f := ParseTokens(toks).value;
      WellFormed(f) && forall c :: c in f.clauses ==> |c.literals| > 0
  {
    var f := ParseTokens(toks).value;
    var nums := Nums(toks[4..], f.numVars);
    var runs := SplitRuns(nums, IsZero);
    forall c, l | c in f.clauses && l in c.literals
      ensures 1 <= l.v <= f.numVars
    {
      var i :| 0 <= i < |f.clauses| && f.clauses[i] == c;
      assert runs[i] in runs;
      var j :| 0 <= j < |c.literals| && c.literals[j] == l;
      var x := runs[i][j];
      assert x in runs[i];
      assert x in nums by {
        SplitRunsKeepsOrder(nums, IsZero);
        ConcatContains(runs, i, j);
        KeepSubset(nums, IsZero, x);
      }
      var p :| 0 <= p < |nums| && nums[p] == x;
    }
    forall c | c in f.clauses
      ensures |c.literals| > 0
    {
      var i :| 0 <= i < |f.clauses| && f.clauses[i] == c;
      assert runs[i] in runs;
    }
  }

  lemma {:induction false} ConcatContains<T>(runs: seq<seq<T>>, i: nat, j: nat)
    requires i < |runs| && j < |runs[i]|
    ensures runs[i][j] in Concat(runs)
  {
    if i == 0 {
      assert Concat(runs) == runs[0] + Concat(runs[1..]);
      assert Concat(runs)[j] == runs[0][j];
    } else {
      ConcatContains(runs[1..], i - 1, j);
      assert Concat(runs) == runs[0] + Concat(runs[1..]);
    }
  }

  lemma {:induction false} KeepSubset<T>(s: seq<T>, sep: T -> bool, x: T)
    requires x in Keep(s, sep)
    ensures x in s
  {
    if s != [] {
      if x != s[0] {
        KeepSubset(s[1..], sep, x);
      }
    }
  }

  // ---------------------------------------------------------------------------
  // Writing DIMACS: the inverse the parser is checked against.
  // ---------------------------------------------------------------------------

  function Digit(d: nat): char
    requires d < 10
  {
    ('0' as int + d) as char
  }

  /** The decimal numeral of n, without sign or leading zeros. */
  function ShowNat(n: nat): string
  {
    if n < 10 then [Digit(n)] else ShowNat(n / 10) + [Digit(n % 10)]
  }

  function ShowInt(x: int): string
  {
    if x < 0 then "-" + ShowNat(-x) else ShowNat(x)
  }

  /** Words joined by single spaces. */
  function JoinWords(ws: seq<string>): string
  {
    if |ws| == 0 then "" else if |ws| == 1 then ws[0] else ws[0] + " " + JoinWords(ws[1..])
  }

  /** The words of one clause line: its literals' numerals, then the terminating 0. */
  function ClauseWords(c: Clause): seq<string>
  {
    seq(|c.literals|, i requires 0 <= i < |c.literals| => ShowInt(Num(c.literals[i]))) + ["0"]
  }

  function BodyTokens(cs: seq<Clause>): seq<string>
  {
    if cs == [] then [] else ClauseWords(cs[0]) + BodyTokens(cs[1..])
  }

  function HeaderTokens(numVars: nat, numClauses: nat): seq<string>
  {
    ["p", "cnf", ShowNat(numVars), ShowNat(numClauses)]
  }

  /** A DIMACS text: the header line, then one line per clause. */
  function DimacsLines(numVars: nat, numClauses: nat, cs: seq<Clause>): seq<string>
  {
    [JoinWords(HeaderTokens(numVars, numClauses))] + ClauseLines(cs)
  }

  function ClauseLines(cs: seq<Clause>): seq<string>
  {
    if cs == [] then [] else [JoinWords(ClauseWords(cs[0]))] + ClauseLines(cs[1..])
  }

  /** The numerals of a clause, in order. */
  function Numerals(c: Clause): seq<int>
  {
    seq(|c.literals|, i requires 0 <= i < |c.literals| => Num(c.literals[i]))
  }

  function AllNumerals(cs: seq<Clause>): seq<seq<int>>
  {
    seq(|cs|, i requires 0 <= i < |cs| => Numerals(cs[i]))
  }

  predicate Word(w: string)
  {
    |w| > 0 && forall i :: 0 <= i < |w| ==> !IsWhitespace(w[i])
  }

  lemma {:induction false} ShowNatDigits(n: nat)
    ensures |ShowNat(n)| > 0 && AllDigits(ShowNat(n)) && DigitsValue(ShowNat(n)) == n
  {
    if n >= 10 {
      ShowNatDigits(n / 10);
      var s := ShowNat(n);
      assert s[..|s| - 1] == ShowNat(n / 10);
    }
  }

  /** The u32 parser reads back every numeral the writer produces for a value below 2^32. */
  lemma ShowNatParses(n: nat)
    requires n < U32_LIMIT
    ensures ParseU32(ShowNat(n)) == Some(n) && Word(ShowNat(n))
  {
    ShowNatDigits(n);
  }

  /** The i32 parser reads back every numeral the writer produces for a value in range. */
  lemma ParseI32Unsigned(s: string)
    requires |s| > 0 && AllDigits(s) && DigitsValue(s) <= I32_MAX
    ensures ParseI32(s) == Some(DigitsValue(s))
  {
    assert IsDigit(s[0]);
  }

  lemma ParseI32Negative(s: string)
    requires |s| > 0 && AllDigits(s) && DigitsValue(s) <= I32_MAX
    ensures ParseI32("-" + s) == Some(-(DigitsValue(s) as int))
  {
    var t := "-" + s;
    assert t[0] == '-' && t[1..] == s;
  }

  lemma ShowIntParses(x: int)
    requires I32_MIN < x <= I32_MAX
    ensures ParseI32(ShowInt(x)) == Some(x) && Word(ShowInt(x))
    ensures IsDigit(ShowInt(x)[0]) || ShowInt(x)[0] == '-'
  {
    if x < 0 {
      ShowNatDigits(-x);
      ParseI32Negative(ShowNat(-x));
    } else {
      ShowNatDigits(x);
      ParseI32Unsigned(ShowNat(x));
    }
  }

  lemma {:induction false} RunLengthWhole<T>(s: seq<T>, sep: T -> bool)
    requires forall i :: 0 <= i < |s| ==> !sep(s[i])
    ensures RunLength(s, sep) == |s|
  {
    if s != [] {
      RunLengthWhole(s[1..], sep);
    }
  }

  /** A non-empty run with no separator splits into itself. */
  lemma SplitRunsSingle<T>(r: seq<T>, sep: T -> bool)
    requires |r| > 0 && forall i :: 0 <= i < |r| ==> !sep(r[i])
    ensures SplitRuns(r, sep) == [r]
  {
    RunLengthWhole(r, sep);
    assert r[..|r|] == r && r[|r|..] == [];
  }

  /** A run followed by a separator splits off as the first run. */
  lemma SplitRunsAfterRun<T>(r: seq<T>, z: T, rest: seq<T>, sep: T -> bool)
    requires |r| > 0 && forall x :: x in r ==> !sep(x)
    requires sep(z)
    ensures SplitRuns(r + [z] + rest, sep) == [r] + SplitRuns(rest, sep)
  {
    var s := r + [z] + rest;
    RunLengthOfJoin(r, z, rest, sep);
    assert s[0] == r[0];
    assert r[0] in r;
    assert s[..|r|] == r;
    assert s[|r|..] == [z] + rest;
    assert ([z] + rest)[1..] == rest;
  }

  /** Splitting on whitespace inverts joining words with single spaces. */
  lemma {:induction false} SplitJoinWords(ws: seq<string>)
    requires forall w :: w in ws ==> Word(w)
    ensures SplitWhitespace(JoinWords(ws)) == ws
  {
    if |ws| == 1 {
      assert ws[0] in ws;
      SplitRunsSingle(ws[0], IsWhitespace);
    } else if |ws| > 1 {
      assert ws[0] in ws;
      assert forall q :: q in ws[1..] ==> q in ws;
      SplitJoinWords(ws[1..]);
      SplitWordThenJoined(ws[0], ws[1..]);
      assert JoinWords(ws) == ws[0] + [' '] + JoinWords(ws[1..]);
    }
  }

  /** A word, a space and any text split into the word and the text's own words. */
  lemma SplitWordThenJoined(w: string, ws: seq<string>)
    requires Word(w)
    ensures SplitWhitespace(w + [' '] + JoinWords(ws)) == [w] + SplitWhitespace(JoinWords(ws))
  {
    assert forall x :: x in w ==> !IsWhitespace(x);
    SplitRunsAfterRun(w, ' ', JoinWords(ws), IsWhitespace);
  }

  lemma {:induction false} TokensAppend(a: seq<string>, b: seq<string>)
    ensures Tokens(a + b) == Tokens(a) + Tokens(b)
  {
    if a == [] {
      assert a + b == b;
    } else {
      assert (a + b)[0] == a[0] && (a + b)[1..] == a[1..] + b;
      TokensAppend(a[1..], b);
    }
  }

  /** Every literal's numeral is an i32 within the variable range. */
  predicate Printable(numVars: nat, cs: seq<Clause>)
  {
    numVars <= I32_MAX &&
    forall c, l :: c in cs && l in c.literals ==> 1 <= l.v <= I32_MAX
  }

  lemma ClauseWordsAreWords(numVars: nat, cs: seq<Clause>, c: Clause)
    requires Printable(numVars, cs) && c in cs
    ensures forall w :: w in ClauseWords(c) ==> Word(w)
  {
    forall w | w in ClauseWords(c)
      ensures Word(w)
    {
      var i :| 0 <= i < |ClauseWords(c)| && ClauseWords(c)[i] == w;
      if i < |c.literals| {
        assert c.literals[i] in c.literals;
        ShowIntParses(Num(c.literals[i]));
      } else {
        assert w == "0";
      }
    }
  }

  /** The token stream of a written DIMACS text is its header followed by each clause's words. */
  lemma {:induction false} TokensOfDimacsLines(numVars: nat, numClauses: nat, cs: seq<Clause>)
    requires Printable(numVars, cs) && numClauses < U32_LIMIT
    ensures Tokens(DimacsLines(numVars, numClauses, cs)) == HeaderTokens(numVars, numClauses) + BodyTokens(cs)
    decreases |cs|
  {
    var h := HeaderTokens(numVars, numClauses);
    ShowNatParses(numVars);
    ShowNatParses(numClauses);
    assert forall w :: w in h ==> Word(w);
    SplitJoinWords(h);
    var header := JoinWords(h);
    assert header[0] == 'p';
    var lines := DimacsLines(numVars, numClauses, cs);
    ClauseLinesTokens(numVars, cs);
    assert lines == [header] + lines[1..];
  }

  lemma {:induction false} ClauseLinesTokens(numVars: nat, cs: seq<Clause>)
    requires Printable(numVars, cs)
    ensures Tokens(ClauseLines(cs)) == BodyTokens(cs)
    decreases |cs|
  {
    var lines := ClauseLines(cs);
    if cs != [] {
      var c := cs[0];
      assert c in cs;
      ClauseWordsAreWords(numVars, cs, c);
      SplitJoinWords(ClauseWords(c));
      var line := JoinWords(ClauseWords(c));
      assert !IsComment(line) by {
        var w := ClauseWords(c)[0];
        assert line[0] == w[0];
        if |c.literals| > 0 {
          assert c.literals[0] in c.literals;
          ShowIntParses(Num(c.literals[0]));
        }
      }
      assert forall d, l :: d in cs[1..] && l in d.literals ==> d in cs;
      ClauseLinesTokens(numVars, cs[1..]);
      assert lines[0] == line && lines[1..] == ClauseLines(cs[1..]);
    }
  }

  lemma {:induction false} NumsAppend(a: seq<string>, b: seq<string>, numVars: nat)
    requires forall t :: t in a + b ==> ValidLiteralToken(t, numVars)
    ensures forall t :: t in a ==> ValidLiteralToken(t, numVars)
    ensures forall t :: t in b ==> ValidLiteralToken(t, numVars)
    ensures Nums(a + b, numVars) == Nums(a, numVars) + Nums(b, numVars)
  {
    assert forall t :: t in a ==> t in a + b;
    assert forall t :: t in b ==> t in a + b;
    if a != [] {
      assert (a + b)[0] == a[0] && (a + b)[1..] == a[1..] + b;
      NumsAppend(a[1..], b, numVars);
    } else {
      assert a + b == b;
    }
  }

  lemma ClauseWordsParse(c: Clause)
    requires forall l :: l in c.literals ==> 1 <= l.v <= I32_MAX
    ensures |ClauseWords(c)| == |c.literals| + 1 && ClauseWords(c)[|c.literals|] == "0"
    ensures ParseI32("0") == Some(0)
    ensures forall i :: 0 <= i < |c.literals| ==> ParseI32(ClauseWords(c)[i]) == Some(Num(c.literals[i]))
  {
    ShowIntParses(0);
    var ws := ClauseWords(c);
    forall i | 0 <= i < |c.literals|
      ensures ParseI32(ws[i]) == Some(Num(c.literals[i]))
    {
      var l := c.literals[i];
      assert l in c.literals;
      assert ws[i] == ShowInt(Num(l));
      LitWordParses(l);
    }
  }

  lemma LitWordParses(l: Lit)
    requires 1 <= l.v <= I32_MAX
    ensures ParseI32(ShowInt(Num(l))) == Some(Num(l))
  {
    ShowIntParses(Num(l));
  }

  lemma ValidTokenOf(t: string, x: int, numVars: nat)
    requires ParseI32(t) == Some(x)
    ensures ValidLiteralToken(t, numVars) <==> Abs(x) <= numVars
  {
  }

  /** The i-th word of a clause is acceptable exactly when the i-th literal's variable is in range. */
  lemma ClauseWordValid(numVars: nat, c: Clause, i: nat)
    requires forall l :: l in c.literals ==> 1 <= l.v <= I32_MAX
    requires i <= |c.literals|
    ensures ValidLiteralToken(ClauseWords(c)[i], numVars) <==> i == |c.literals| || c.literals[i].v <= numVars
  {
    ClauseWordsParse(c);
    if i < |c.literals| {
      ValidTokenOf(ClauseWords(c)[i], Num(c.literals[i]), numVars);
    } else {
      ValidTokenOf(ClauseWords(c)[i], 0, numVars);
    }
  }

  /** A clause's words are acceptable exactly when its variables are in range, and then read back as its numerals. */
  lemma ClauseWordsValid(numVars: nat, c: Clause)
    requires numVars <= I32_MAX
    requires forall l :: l in c.literals ==> 1 <= l.v <= I32_MAX
    ensures (forall t :: t in ClauseWords(c) ==> ValidLiteralToken(t, numVars)) <==>
            (forall l :: l in c.literals ==> l.v <= numVars)
    ensures (forall t :: t in ClauseWords(c) ==> ValidLiteralToken(t, numVars)) ==>
            Nums(ClauseWords(c), numVars) == Numerals(c) + [0]
  {
    ClauseWordsInRange(numVars, c);
    if forall t :: t in ClauseWords(c) ==> ValidLiteralToken(t, numVars) {
      ClauseWordsParse(c);
      NumsOfWords(ClauseWords(c), numVars, Numerals(c) + [0]);
    }
  }

  /** Every word of a clause is acceptable exactly when every variable is in range. */
  lemma ClauseWordsInRange(numVars: nat, c: Clause)
    requires numVars <= I32_MAX
    requires forall l :: l in c.literals ==> 1 <= l.v <= I32_MAX
    ensures (forall t :: t in ClauseWords(c) ==> ValidLiteralToken(t, numVars)) <==>
            (forall l :: l in c.literals ==> l.v <= numVars)
  {
    var ws := ClauseWords(c);
    var n := |c.literals|;
    ClauseWordsIndexed(numVars, c);
    if forall l :: l in c.literals ==> l.v <= numVars {
      forall t | t in ws ensures ValidLiteralToken(t, numVars) {
        var i :| 0 <= i < |ws| && ws[i] == t;
        if i < n { assert c.literals[i] in c.literals; }
      }
    }
    if forall t :: t in ws ==> ValidLiteralToken(t, numVars) {
      forall l | l in c.literals ensures l.v <= numVars {
        var i :| 0 <= i < n && c.literals[i] == l;
        assert ws[i] in ws;
      }
    }
  }

  /** ClauseWordValid at every position of the clause's words. */
  lemma ClauseWordsIndexed(numVars: nat, c: Clause)
    requires forall l :: l in c.literals ==> 1 <= l.v <= I32_MAX
    ensures |ClauseWords(c)| == |c.literals| + 1
    ensures forall i :: 0 <= i <= |c.literals| ==>
      (ValidLiteralToken(ClauseWords(c)[i], numVars) <==> i == |c.literals| || c.literals[i].v <= numVars)
  {
    ClauseWordsParse(c);
    forall i: nat | i <= |c.literals| {
      ClauseWordValid(numVars, c, i);
    }
  }

  lemma BodyTokensMembers(cs: seq<Clause>, t: string)
    requires cs != []
    ensures BodyTokens(cs) == ClauseWords(cs[0]) + BodyTokens(cs[1..])
    ensures t in BodyTokens(cs) <==> t in ClauseWords(cs[0]) || t in BodyTokens(cs[1..])
  {
  }

  /** Every body token is acceptable exactly when every literal's variable is declared. */
  lemma {:induction false} BodyTokensInRange(numVars: nat, cs: seq<Clause>)
    requires numVars <= I32_MAX
    requires forall c, l :: c in cs && l in c.literals ==> 1 <= l.v <= I32_MAX
    ensures (forall t :: t in BodyTokens(cs) ==> ValidLiteralToken(t, numVars)) <==>
            (forall c, l :: c in cs && l in c.literals ==> l.v <= numVars)
    decreases |cs|
  {
    if cs != [] {
      var c := cs[0];
      assert c in cs;
      assert forall d :: d in cs <==> d == c || d in cs[1..];
      BodyTokensInRange(numVars, cs[1..]);
      ClauseWordsValid(numVars, c);
      forall t { BodyTokensMembers(cs, t); }
    }
  }

  /** Acceptable body tokens read back as the clauses' numerals, each run closed by 0. */
  lemma {:induction false} BodyTokensNums(numVars: nat, cs: seq<Clause>)
    requires numVars <= I32_MAX
    requires forall c, l :: c in cs && l in c.literals ==> 1 <= l.v <= I32_MAX
    requires forall t :: t in BodyTokens(cs) ==> ValidLiteralToken(t, numVars)
    ensures Nums(BodyTokens(cs), numVars) == JoinRuns(AllNumerals(cs), 0)
    decreases |cs|
  {
    if cs != [] {
      var c := cs[0];
      assert c in cs;
      assert forall d :: d in cs[1..] ==> d in cs;
      forall t { BodyTokensMembers(cs, t); }
      BodyTokensNums(numVars, cs[1..]);
      ClauseWordsValid(numVars, c);
      NumsAppend(ClauseWords(c), BodyTokens(cs[1..]), numVars);
      assert AllNumerals(cs)[0] == Numerals(c);
      assert AllNumerals(cs)[1..] == AllNumerals(cs[1..]);
    }
  }

  lemma {:induction false} NumsOfWords(ws: seq<string>, numVars: nat, xs: seq<int>)
    requires forall t :: t in ws ==> ValidLiteralToken(t, numVars)
    requires |xs| == |ws| && forall i :: 0 <= i < |ws| ==> ParseI32(ws[i]) == Some(xs[i])
    ensures Nums(ws, numVars) == xs
  {
    if ws != [] {
      assert forall t :: t in ws[1..] ==> t in ws;
      NumsOfWords(ws[1..], numVars, xs[1..]);
    }
  }

  /** A clause's numerals are non-zero and read back as the clause. */
  lemma ClauseOfNumerals(c: Clause)
    requires forall l :: l in c.literals ==> l.v >= 1
    ensures forall x :: x in Numerals(c) ==> x != 0
    ensures ClauseOf(Numerals(c)) == c
  {
    var r := Numerals(c);
    forall j | 0 <= j < |r|
      ensures r[j] != 0 && LitOf(r[j]) == c.literals[j]
    {
      assert c.literals[j] in c.literals;
      LitNumRoundTrip(c.literals[j]);
    }
  }

  lemma ClausesOfNumerals(cs: seq<Clause>)
    requires forall c :: c in cs ==> |c.literals| > 0
    requires forall c, l :: c in cs && l in c.literals ==> l.v >= 1
    ensures forall r :: r in AllNumerals(cs) ==> |r| > 0 && forall x :: x in r ==> !IsZero(x)
    ensures ClausesOf(AllNumerals(cs)) == cs
  {
    var runs := AllNumerals(cs);
    forall i | 0 <= i < |cs|
      ensures |runs[i]| > 0 && (forall x :: x in runs[i] ==> !IsZero(x)) && ClauseOf(runs[i]) == cs[i]
    {
      assert cs[i] in cs;
      ClauseOfNumerals(cs[i]);
    }
  }

  /** The clauses read from a written body are the clauses written. */
  lemma BodyClausesOfWritten(numVars: nat, cs: seq<Clause>)
    requires numVars <= I32_MAX
    requires forall c :: c in cs ==> |c.literals| > 0
    requires forall c, l :: c in cs && l in c.literals ==> 1 <= l.v <= numVars
    ensures forall t :: t in BodyTokens(cs) ==> ValidLiteralToken(t, numVars)
    ensures BodyClauses(BodyTokens(cs), numVars) == cs
  {
    BodyTokensInRange(numVars, cs);
    BodyTokensNums(numVars, cs);
    ClausesOfNumerals(cs);
    SplitJoinRoundTrip(AllNumerals(cs), 0, IsZero);
  }

  /**
   * Reading a written DIMACS text: if every literal's variable lies in the
   * declared range, the clauses come back unchanged and the clause count
   * decides between success and IncorrectClauseCount; if one does not, the
   * text is rejected with InvalidLiteral.
   */
  lemma ParseDimacsLines(numVars: nat, numClauses: nat, cs: seq<Clause>)
    requires Printable(numVars, cs) && numClauses < U32_LIMIT
    requires forall c :: c in cs ==> |c.literals| > 0
    ensures var r := ParseDimacs(DimacsLines(numVars, numClauses, cs));
      if forall c, l :: c in cs && l in c.literals ==> l.v <= numVars then
        r == if numClauses == |cs| then Ok(CnfFormula(numVars, cs)) else Err(IncorrectClauseCount)
      else r == Err(InvalidLiteral)
  {
    TokensOfDimacsLines(numVars, numClauses, cs);
    ParseWrittenTokens(numVars, numClauses, cs);
  }

  /** ParseTokens on a well-formed header: the body alone decides the outcome. */
  lemma ParseAfterHeader(nvTok: string, ncTok: string, body: seq<string>, numVars: nat, numClauses: nat)
    requires ParseU32(nvTok) == Some(numVars) && ParseU32(ncTok) == Some(numClauses)
    ensures ParseTokens(["p", "cnf", nvTok, ncTok] + body) ==
      if !(forall t :: t in body ==> ValidLiteralToken(t, numVars)) then Err(InvalidLiteral)
      else if |BodyClauses(body, numVars)| != numClauses then Err(IncorrectClauseCount)
      else Ok(CnfFormula(numVars, BodyClauses(body, numVars)))
  {
    var toks := ["p", "cnf", nvTok, ncTok] + body;
    assert toks[0] == "p" && toks[1] == "cnf" && toks[2] == nvTok && toks[3] == ncTok;
    assert toks[4..] == body;
  }

  lemma ParseWrittenTokens(numVars: nat, numClauses: nat, cs: seq<Clause>)
    requires Printable(numVars, cs) && numClauses < U32_LIMIT
    requires forall c :: c in cs ==> |c.literals| > 0
    ensures var r := ParseTokens(HeaderTokens(numVars, numClauses) + BodyTokens(cs));
      if forall c, l :: c in cs && l in c.literals ==> l.v <= numVars then
        r == if numClauses == |cs| then Ok(CnfFormula(numVars, cs)) else Err(IncorrectClauseCount)
      else r == Err(InvalidLiteral)
  {
    ShowNatParses(numVars);
    ShowNatParses(numClauses);
    ParseAfterHeader(ShowNat(numVars), ShowNat(numClauses), BodyTokens(cs), numVars, numClauses);
    BodyTokensInRange(numVars, cs);
    if forall c, l :: c in cs && l in c.literals ==> l.v <= numVars {
      BodyClausesOfWritten(numVars, cs);
    }
  }

  lemma {:induction false} ClauseLinesAre(cs: seq<Clause>, lines: seq<string>)
    requires |cs| == |lines|
    requires forall i :: 0 <= i < |cs| ==> JoinWords(ClauseWords(cs[i])) == lines[i]
    ensures ClauseLines(cs) == lines
  {
    if cs != [] {
      ClauseLinesAre(cs[1..], lines[1..]);
    }
  }

  /** The numerals of the small values the examples use. */
  lemma SmallNumerals()
    ensures ShowNat(2) == "2" && ShowNat(3) == "3" && ShowNat(5) == "5"
    ensures ShowInt(1) == "1" && ShowInt(2) == "2" && ShowInt(3) == "3" && ShowInt(4) == "4"
    ensures ShowInt(-1) == "-1" && ShowInt(-2) == "-2" && ShowInt(-3) == "-3" && ShowInt(-4) == "-4"
  {
  }

  /** Joining a word in front of a non-empty run of words. */
  lemma JoinCons(w: string, ws: seq<string>)
    requires ws != []
    ensures JoinWords([w] + ws) == w + " " + JoinWords(ws)
  {
    assert ([w] + ws)[0] == w;
    assert ([w] + ws)[1..] == ws;
  }

  /** The line written for a two-literal clause. */
  lemma PairLine(a: Lit, b: Lit)
    ensures JoinWords(ClauseWords(Clause([a, b]))) == ShowInt(Num(a)) + " " + ShowInt(Num(b)) + " 0"
  {
    var x, y := ShowInt(Num(a)), ShowInt(Num(b));
    assert ClauseWords(Clause([a, b])) == [x] + [y, "0"];
    assert JoinWords(["0"]) == "0";
    assert [y, "0"] == [y] + ["0"];
    JoinCons(y, ["0"]);
    JoinCons(x, [y, "0"]);
  }

  /** The header line. */
  lemma HeaderLine(numVars: nat, numClauses: nat)
    ensures JoinWords(HeaderTokens(numVars, numClauses)) == "p cnf " + ShowNat(numVars) + " " + ShowNat(numClauses)
  {
    var x, y := ShowNat(numVars), ShowNat(numClauses);
    assert JoinWords([y]) == y;
    assert [x, y] == [x] + [y];
    JoinCons(x, [y]);
    assert ["cnf", x, y] == ["cnf"] + [x, y];
    JoinCons("cnf", [x, y]);
    assert HeaderTokens(numVars, numClauses) == ["p"] + ["cnf", x, y];
    JoinCons("p", ["cnf", x, y]);
  }

  function ExampleClauses(): seq<Clause>
  {
    [Clause([Lit(1, true), Lit(2, true)]), Clause([Lit(1, true), Lit(2, false)]),
     Clause([Lit(3, true), Lit(4, true)]), Clause([Lit(3, true), Lit(4, false)]),
     Clause([Lit(1, false), Lit(3, false)])]
  }

  lemma ExampleLines()
    ensures DimacsLines(5, 5, ExampleClauses())
         == ["p cnf 5 5", "1 2 0", "1 -2 0", "3 4 0", "3 -4 0", "-1 -3 0"]
  {
    SmallNumerals();
    HeaderLine(5, 5);
    assert "p cnf " + "5" + " " + "5" == "p cnf 5 5";
    ExampleClauseLines();
    assert ["p cnf 5 5"] + ["1 2 0", "1 -2 0", "3 4 0", "3 -4 0", "-1 -3 0"]
        == ["p cnf 5 5", "1 2 0", "1 -2 0", "3 4 0", "3 -4 0", "-1 -3 0"];
  }

  lemma ExampleClauseLines()
    ensures ClauseLines(ExampleClauses()) == ["1 2 0", "1 -2 0", "3 4 0", "3 -4 0", "-1 -3 0"]
  {
    var cs := ExampleClauses();
    var lines := ["1 2 0", "1 -2 0", "3 4 0", "3 -4 0", "-1 -3 0"];
    SmallNumerals();
    PairLine(Lit(1, true), Lit(2, true));
    PairLine(Lit(1, true), Lit(2, false));
    PairLine(Lit(3, true), Lit(4, true));
    PairLine(Lit(3, true), Lit(4, false));
    PairLine(Lit(1, false), Lit(3, false));
    assert JoinWords(ClauseWords(cs[0])) == lines[0];
    assert JoinWords(ClauseWords(cs[1])) == lines[1];
    assert JoinWords(ClauseWords(cs[2])) == lines[2];
    assert JoinWords(ClauseWords(cs[3])) == lines[3];
    assert JoinWords(ClauseWords(cs[4])) == lines[4];
    ClauseLinesAre(cs, lines);
  }

  /**
   * The parser's own test input, without its comment lines (which
   * CommentLineIgnored removes wherever they stand), is read as the five
   * clauses it spells.
   */
  lemma ParseNormalExample()
    ensures ParseDimacs(["p cnf 5 5", "1 2 0", "1 -2 0", "3 4 0", "3 -4 0", "-1 -3 0"])
         == Ok(CnfFormula(5, [Clause([Lit(1, true), Lit(2, true)]), Clause([Lit(1, true), Lit(2, false)]),
                              Clause([Lit(3, true), Lit(4, true)]), Clause([Lit(3, true), Lit(4, false)]),
                              Clause([Lit(1, false), Lit(3, false)])]))
  {
    ExampleLines();
    ExamplePrintable();
    ParseDimacsLines(5, 5, ExampleClauses());
  }

  function OutOfBoundsClauses(): seq<Clause>
  {
    [Clause([Lit(1, true), Lit(2, true)]), Clause([Lit(1, true), Lit(2, false)]),
     Clause([Lit(3, true), Lit(4, false)])]
  }

  lemma OutOfBoundsClauseLines()
    ensures ClauseLines(OutOfBoundsClauses()) == ["1 2 0", "1 -2 0", "3 -4 0"]
  {
    var cs := OutOfBoundsClauses();
    var lines := ["1 2 0", "1 -2 0", "3 -4 0"];
    SmallNumerals();
    PairLine(Lit(1, true), Lit(2, true));
    PairLine(Lit(1, true), Lit(2, false));
    PairLine(Lit(3, true), Lit(4, false));
    assert JoinWords(ClauseWords(cs[0])) == lines[0];
    assert JoinWords(ClauseWords(cs[1])) == lines[1];
    assert JoinWords(ClauseWords(cs[2])) == lines[2];
    ClauseLinesAre(cs, lines);
  }

  lemma OutOfBoundsLines()
    ensures DimacsLines(3, 3, OutOfBoundsClauses()) == ["p cnf 3 3", "1 2 0", "1 -2 0", "3 -4 0"]
  {
    SmallNumerals();
    HeaderLine(3, 3);
    assert "p cnf " + "3" + " " + "3" == "p cnf 3 3";
    OutOfBoundsClauseLines();
    assert ["p cnf 3 3"] + ["1 2 0", "1 -2 0", "3 -4 0"] == ["p cnf 3 3", "1 2 0", "1 -2 0", "3 -4 0"];
  }

  /** A literal -4 in a formula declared with 3 variables is rejected. */
  lemma ParseOutOfBoundsExample()
    ensures ParseDimacs(["p cnf 3 3", "1 2 0", "1 -2 0", "3 -4 0"]) == Err(InvalidLiteral)
  {
    var cs := OutOfBoundsClauses();
    OutOfBoundsLines();
    OutOfBoundsPrintable();
    assert Lit(4, false) in cs[2].literals;
    ParseDimacsLines(3, 3, cs);
  }

  function CountClauses(n: nat): seq<Clause>
    requires n <= 3
  {
    [Clause([Lit(1, true), Lit(2, true)]), Clause([Lit(1, true), Lit(2, false)]),
     Clause([Lit(3, true), Lit(2, false)])][..n]
  }

  lemma CountClauseLines(n: nat)
    requires n == 2 || n == 3
    ensures ClauseLines(CountClauses(n)) == ["1 2 0", "1 -2 0", "3 -2 0"][..n]
  {
    var c0, c1, c2 := Clause([Lit(1, true), Lit(2, true)]), Clause([Lit(1, true), Lit(2, false)]),
                      Clause([Lit(3, true), Lit(2, false)]);
    SmallNumerals();
    PairLine(Lit(1, true), Lit(2, true));
    PairLine(Lit(1, true), Lit(2, false));
    PairLine(Lit(3, true), Lit(2, false));
    if n == 2 {
      assert CountClauses(n) == [c0, c1];
      ClauseLinesAre([c0, c1], ["1 2 0", "1 -2 0"]);
    } else {
      assert CountClauses(n) == [c0, c1, c2];
      ClauseLinesAre([c0, c1, c2], ["1 2 0", "1 -2 0", "3 -2 0"]);
    }
  }

  lemma CountLines(numClauses: nat)
    requires numClauses == 2 || numClauses == 3
    ensures DimacsLines(3, numClauses, CountClauses(5 - numClauses))
         == if numClauses == 3 then ["p cnf 3 3", "1 2 0", "1 -2 0"] else ["p cnf 3 2", "1 2 0", "1 -2 0", "3 -2 0"]
  {
    SmallNumerals();
    HeaderLine(3, numClauses);
    assert "p cnf " + "3" + " " + "3" == "p cnf 3 3";
    assert "p cnf " + "3" + " " + "2" == "p cnf 3 2";
    CountClauseLines(5 - numClauses);
    if numClauses == 3 {
      assert ["p cnf 3 3"] + ["1 2 0", "1 -2 0", "3 -2 0"][..2] == ["p cnf 3 3", "1 2 0", "1 -2 0"];
    } else {
      assert ["p cnf 3 2"] + ["1 2 0", "1 -2 0", "3 -2 0"][..3] == ["p cnf 3 2", "1 2 0", "1 -2 0", "3 -2 0"];
    }
  }

  lemma CountPrintable(n: nat)
    requires n == 2 || n == 3
    ensures Printable(3, CountClauses(n)) && forall c :: c in CountClauses(n) ==> |c.literals| > 0
    ensures forall c, l :: c in CountClauses(n) && l in c.literals ==> l.v <= 3
  {
    PairsInRange(CountClauses(n), 3);
  }

  lemma ExamplePrintable()
    ensures Printable(5, ExampleClauses()) && forall c :: c in ExampleClauses() ==> |c.literals| > 0
    ensures forall c, l :: c in ExampleClauses() && l in c.literals ==> l.v <= 5
  {
    PairsInRange(ExampleClauses(), 5);
  }

  /** Clauses of two literals whose variables are at most k are printable with k variables. */
  lemma PairsInRange(cs: seq<Clause>, k: nat)
    requires k <= I32_MAX
    requires forall c :: c in cs ==> |c.literals| == 2 && 1 <= c.literals[0].v <= k && 1 <= c.literals[1].v <= k
    ensures Printable(k, cs) && forall c :: c in cs ==> |c.literals| > 0
    ensures forall c, l :: c in cs && l in c.literals ==> l.v <= k
  {
    forall c, l | c in cs && l in c.literals
      ensures 1 <= l.v <= k
    {
      assert l == c.literals[0] || l == c.literals[1];
    }
  }

  lemma OutOfBoundsPrintable()
    ensures Printable(3, OutOfBoundsClauses()) && forall c :: c in OutOfBoundsClauses() ==> |c.literals| > 0
  {
    PairsInRange(OutOfBoundsClauses(), 4);
  }

  /** Fewer clauses than the header declares is an error. */
  lemma ParseTooFewExample()
    ensures ParseDimacs(["p cnf 3 3", "1 2 0", "1 -2 0"]) == Err(IncorrectClauseCount)
  {
    CountLines(3);
    CountPrintable(2);
    ParseDimacsLines(3, 3, CountClauses(2));
  }

  /** More clauses than the header declares is an error. */
  lemma ParseTooManyExample()
    ensures ParseDimacs(["p cnf 3 2", "1 2 0", "1 -2 0", "3 -2 0"]) == Err(IncorrectClauseCount)
  {
    CountLines(2);
    CountPrintable(3);
    ParseDimacsLines(3, 2, CountClauses(3));
  }
}
