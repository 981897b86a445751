/** A TraceQL query whose first `}` is inside a literal (backend/internal/tenancy/traceql.go): the pasted text
    swallows the conditions. With the queries of which that is not true, this decides confinement for every text the
    code accepts. */
module TraceQLCut {
  import opened Wrappers
  import opened Text
  import opened Alternation
  import opened Quoting
  import opened Braces
  import LogQL
  import opened TraceQL
  import opened TraceQLAccess

  /* Splitting at either operator. */

  predicate AtOperator(s: string, m: Mode, depth: int) {
    m == Plain && depth == 0 && |s| >= 2 && s[0] == s[1] && s[0] in "|&"
  }

  /** The first `||` or `&&` outside literals and parentheses, or the end. */
  function Cut(s: string, m: Mode, depth: int): (i: nat)
    ensures i == |s| || i + 2 <= |s|
    decreases |s|
  {
    if s == "" || AtOperator(s, m, depth) then 0 else 1 + Cut(s[1..], Next(m, s[0]), depth + Paren(m, s[0]))
  }

  lemma FindUnfolds(s: string, c: char, m: Mode, depth: int)
    requires s != ""
    ensures FindOp(s, 0, c, m, depth)
      == if m == Plain && depth == 0 && |s| >= 2 && s[0] == c && s[1] == c then 0
         else 1 + FindOp(s[1..], 0, c, Next(m, s[0]), depth + Paren(m, s[0]))
  {
    Shift(s, 1, 1, c, Next(m, s[0]), depth + Paren(m, s[0]));
  }

  lemma BalancedUnfolds(s: string, m: Mode, depth: int)
    requires s != ""
    ensures Balanced(s, 0, m, depth)
      <==> depth + Paren(m, s[0]) >= 0 && Balanced(s[1..], 0, Next(m, s[0]), depth + Paren(m, s[0]))
  {
    Shift(s, 1, 1, '|', Next(m, s[0]), depth + Paren(m, s[0]));
  }

  /** It is the first of the two. */
  lemma {:induction false} CutIsFirst(s: string, m: Mode, depth: int)
    ensures var i, j := FindOp(s, 0, '|', m, depth), FindOp(s, 0, '&', m, depth);
      Cut(s, m, depth) == if i < j then i else j
    decreases |s|
  {
    if s != "" {
      hide FindOp;
      FindUnfolds(s, '|', m, depth);
      FindUnfolds(s, '&', m, depth);
      CutIsFirst(s[1..], Next(m, s[0]), depth + Paren(m, s[0]));
    } else {
      assert FindOp(s, 0, '|', m, depth) == 0 && FindOp(s, 0, '&', m, depth) == 0;
    }
  }

  /** Where an operator is found, literals are closed and parentheses matched. */
  lemma {:induction false} FindIsOutside(s: string, c: char, m: Mode, depth: int)
    requires FindOp(s, 0, c, m, depth) < |s| && c in "|&"
    ensures var i := FindOp(s, 0, c, m, depth);
      && Scan(m, s[..i]) == Plain && depth + Nesting(m, s[..i]) == 0 && s[i] == s[i + 1] == c
      && Scan(m, s[..i + 2]) == Plain
    decreases |s|
  {
    var i := FindOp(s, 0, c, m, depth);
    hide FindOp;
    FindUnfolds(s, c, m, depth);
    if i > 0 {
      FindIsOutside(s[1..], c, Next(m, s[0]), depth + Paren(m, s[0]));
      assert s[..i][1..] == s[1..][..i - 1] && s[..i + 2][1..] == s[1..][..i + 1];
    } else {
      assert s[..2] == [c, c] && [c, c][1..] == [c] && [c][1..] == "";
      assert Scan(Plain, [c]) == Plain && Scan(Plain, [c, c]) == Plain;
    }
  }

  lemma FindBesideFirst(s: string, c: char, d: char)
    requires c in "|&" && d in "|&" && c != d && |s| >= 2 && s[0] == s[1] == c
    ensures FindOp(s[..0], 0, d, Plain, 0) == 0 && FindOp(s, 0, d, Plain, 0) == 2 + FindOp(s[2..], 0, d, Plain, 0)
  {
    assert s[1..][1..] == s[2..] && s[1..][0] == c && s[..0] == "";
    hide FindOp;
    FindUnfolds(s, d, Plain, 0);
    FindUnfolds(s[1..], d, Plain, 0);
    EmptyFind(d, Plain, 0);
  }

  lemma SlicesLater(s: string, i: nat)
    requires 0 < i && i + 2 <= |s|
    ensures s[..i] != "" && s[..i][0] == s[0] && s[..i][1..] == s[1..][..i - 1] && s[i + 2..] == s[1..][i + 1..]
  {}

  /** In front of an operator, and behind it, the other one is found where it is found in the whole. */
  lemma {:induction false} FindBeside(s: string, c: char, d: char, m: Mode, depth: int)
    requires FindOp(s, 0, c, m, depth) < |s| && FindOp(s, 0, d, m, depth) > FindOp(s, 0, c, m, depth)
    requires c in "|&" && d in "|&" && c != d
    ensures var i := FindOp(s, 0, c, m, depth);
      && FindOp(s[..i], 0, d, m, depth) == i
      && FindOp(s, 0, d, m, depth) == i + 2 + FindOp(s[i + 2..], 0, d, Plain, 0)
    decreases |s|
  {
    hide FindOp, Next, Paren;
    var i := FindOp(s, 0, c, m, depth);
    FindUnfolds(s, c, m, depth);
    FindUnfolds(s, d, m, depth);
    if i > 0 {
      FindBeside(s[1..], c, d, Next(m, s[0]), depth + Paren(m, s[0]));
      SlicesLater(s, i);
      FrontFind(s, i, d, m, depth);
    } else {
      FindBesideFirst(s, c, d);
    }
  }

  /** One step of the search in the front of a text, that does not find it at once. */
  lemma FrontFind(s: string, i: nat, d: char, m: Mode, depth: int)
    requires 0 < i <= |s| && FindOp(s, 0, d, m, depth) > 0
    ensures FindOp(s[..i], 0, d, m, depth) == 1 + FindOp(s[..i][1..], 0, d, Next(m, s[0]), depth + Paren(m, s[0]))
  {
    hide FindOp, Next, Paren;
    FindUnfolds(s[..i], d, m, depth);
    FindUnfolds(s, d, m, depth);
    assert s[..i][0] == s[0] && (i >= 2 ==> s[..i][1] == s[1]);
  }

  lemma EmptyFind(c: char, m: Mode, depth: int)
    ensures FindOp("", 0, c, m, depth) == 0
  {}

  /** What is found before `n` is found in the first `n` characters. */
  lemma {:induction false} FindInPrefix(s: string, n: nat, c: char, m: Mode, depth: int)
    requires n <= |s| && FindOp(s, 0, c, m, depth) + 2 <= n
    ensures FindOp(s[..n], 0, c, m, depth) == FindOp(s, 0, c, m, depth)
    decreases |s|
  {
    var i := FindOp(s, 0, c, m, depth);
    hide FindOp;
    FindUnfolds(s, c, m, depth);
    FindUnfolds(s[..n], c, m, depth);
    if i > 0 {
      assert s[..n][1..] == s[1..][..n - 1];
      FindInPrefix(s[1..], n - 1, c, Next(m, s[0]), depth + Paren(m, s[0]));
    }
  }

  lemma OrUnfolds(s: string)
    ensures var i := FindOp(s, 0, '|', Plain, 0);
      if i < |s| then ParseOr(s).Some? <==> ParseAnd(s[..i]).Some? && ParseOr(s[i + 2..]).Some?
      else ParseOr(s) == ParseAnd(s)
  {
    hide FindOp;
  }

  lemma AndUnfoldsRead(s: string)
    ensures var i := FindOp(s, 0, '&', Plain, 0);
      if i < |s| then ParseAnd(s).Some? <==> ParseAtom(s[..i]).Some? && ParseAnd(s[i + 2..]).Some?
      else ParseAnd(s) == ParseAtom(s)
  {
    hide FindOp;
  }

  lemma OrFirst(s: string, i: nat)
    requires i == FindOp(s, 0, '|', Plain, 0) < FindOp(s, 0, '&', Plain, 0)
    ensures ParseOr(s).Some? <==> ParseAtom(s[..i]).Some? && ParseOr(s[i + 2..]).Some?
  {
    FindBeside(s, '|', '&', Plain, 0);
    hide FindOp, ParseOr, ParseAnd, ParseAtom;
    OrUnfolds(s);
    AndUnfoldsRead(s[..i]);
  }

  /** A text reads when what is in front of its first operator reads and what is behind it does. */
  lemma FirstCut(s: string)
    ensures var e := Cut(s, Plain, 0);
      if e < |s| then ParseOr(s).Some? <==> ParseAtom(s[..e]).Some? && ParseOr(s[e + 2..]).Some?
      else ParseOr(s) == ParseAtom(s)
  {
    hide FindOp, Cut, ParseOr, ParseAnd, ParseAtom;
    var i, j := FindOp(s, 0, '|', Plain, 0), FindOp(s, 0, '&', Plain, 0);
    CutIsFirst(s, Plain, 0);
    if i < j {
      OrFirst(s, i);
    } else if j < |s| {
      NotBoth(s, i, j);
      FindBeside(s, '&', '|', Plain, 0);
      AndFirst(s, i, j);
    } else {
      OrUnfolds(s);
      AndUnfoldsRead(s);
    }
  }

  lemma NotBoth(s: string, i: nat, j: nat)
    requires i == FindOp(s, 0, '|', Plain, 0) && j == FindOp(s, 0, '&', Plain, 0) < |s|
    ensures i != j
  {
    FindIsOutside(s, '&', Plain, 0);
    if i < |s| { FindIsOutside(s, '|', Plain, 0); }
  }

  lemma AndFirst(s: string, i: nat, j: nat)
    requires i == FindOp(s, 0, '|', Plain, 0) > j == FindOp(s, 0, '&', Plain, 0)
    requires i == j + 2 + FindOp(s[j + 2..], 0, '|', Plain, 0)
    ensures ParseOr(s).Some? <==> ParseAtom(s[..j]).Some? && ParseOr(s[j + 2..]).Some?
  {
    hide FindOp, ParseOr, ParseAnd, ParseAtom;
    OrUnfolds(s);
    OrUnfolds(s[j + 2..]);
    if i < |s| {
      FindInPrefix(s, i, '&', Plain, 0);
      AndUnfoldsRead(s[..i]);
      assert s[..i][..j] == s[..j] && s[..i][j + 2..] == s[j + 2..][..i - j - 2] &&
        s[j + 2..][i - j - 2 + 2..] == s[i + 2..];
    } else {
      AndUnfoldsRead(s);
    }
  }

  /* Scanning through the front of a text. */

  lemma CutUnfolds(s: string, m: Mode, depth: int)
    requires s != ""
    ensures Cut(s, m, depth) ==
      if AtOperator(s, m, depth) then 0 else 1 + Cut(s[1..], Next(m, s[0]), depth + Paren(m, s[0]))
  {}

  predicate IsOperator(c: char) { c == '|' || c == '&' }

  /** No operator can stand across the seam of these two. */
  predicate Apart(a: string, b: string) { a == "" || b == "" || !IsOperator(a[|a| - 1]) || !IsOperator(b[0]) }

  lemma ApartRest(a: string, b: string)
    requires a != "" && Apart(a, b)
    ensures Apart(a[1..], b)
  {}

  lemma QuotesApart(l: string, x: string, y: string, r: string)
    requires l != "" && l[|l| - 1] == '"' && r != "" && r[0] == '"'
    ensures Apart(l, x) && Apart(y, r)
  {}

  lemma SameFront(a: string, b: string, m: Mode, depth: int)
    requires a != "" && Apart(a, b)
    ensures AtOperator(a + b, m, depth) <==> AtOperator(a, m, depth)
  {
    assert (a + b)[0] == a[0];
    if |a| >= 2 {
      assert (a + b)[1] == a[1];
    } else if b != "" {
      assert (a + b)[1] == b[0];
    } else {
      assert a + b == a;
    }
  }

  lemma ScansUnfold(s: string, m: Mode)
    requires s != ""
    ensures Scan(m, s) == Scan(Next(m, s[0]), s[1..]) &&
      Nesting(m, s) == Paren(m, s[0]) + Nesting(Next(m, s[0]), s[1..])
  {}

  lemma TailOfSum(a: string, b: string)
    requires a != ""
    ensures (a + b)[0] == a[0] && (a + b)[1..] == a[1..] + b
  {}

  lemma {:induction false} CutThrough(a: string, b: string, m: Mode, depth: int)
    requires Apart(a, b)
    ensures Cut(a + b, m, depth)
      == if Cut(a, m, depth) < |a| then Cut(a, m, depth) else |a| + Cut(b, Scan(m, a), depth + Nesting(m, a))
    decreases |a|
  {
    if a == "" {
      assert a + b == b;
    } else {
      hide Cut, AtOperator, Next, Paren, Scan, Nesting, Apart;
      TailOfSum(a, b);
      SameFront(a, b, m, depth);
      CutUnfolds(a, m, depth);
      CutUnfolds(a + b, m, depth);
      ScansUnfold(a, m);
      ApartRest(a, b);
      CutThrough(a[1..], b, Next(m, a[0]), depth + Paren(m, a[0]));
    }
  }

  lemma {:induction false} CutIsOutside(s: string, m: Mode, depth: int)
    requires Cut(s, m, depth) < |s|
    ensures var k := Cut(s, m, depth);
      Scan(m, s[..k + 2]) == Plain && depth + Nesting(m, s[..k]) == 0 && s[k] in "|&"
    decreases |s|
  {
    var i, j := FindOp(s, 0, '|', m, depth), FindOp(s, 0, '&', m, depth);
    CutIsFirst(s, m, depth);
    hide FindOp, Cut, Scan, Nesting;
    if i < j { FindIsOutside(s, '|', m, depth); } else { FindIsOutside(s, '&', m, depth); }
  }

  lemma {:induction false} NoOperatorNoCut(s: string, m: Mode, depth: int)
    requires Free(s, "|&")
    ensures Cut(s, m, depth) == |s|
    decreases |s|
  {
    if s != "" { NoOperatorNoCut(s[1..], Next(m, s[0]), depth + Paren(m, s[0])); }
  }

  /** Text without parentheses does not change whether what follows it is balanced. */
  lemma {:induction false} BalancedBehind(y: string, r: string, m: Mode, depth: int)
    requires Free(y, "()") && r != "" && r[0] == '"'
    ensures Balanced(y + r, 0, m, depth) <==> Balanced(r, 0, Scan(m, y), depth)
    decreases |y|
  {
    hide Balanced;
    BalancedUnfolds(r, Scan(m, y), depth);
    if y == "" {
      assert y + r == r;
    } else {
      assert (y + r)[0] == y[0] && y[0] !in "()" && (y + r)[1..] == y[1..] + r;
      BalancedUnfolds(y + r, m, depth);
      BalancedBehind(y[1..], r, Next(m, y[0]), depth);
      BalancedUnfolds(r, Scan(Next(m, y[0]), y[1..]), depth);
    }
  }

  lemma {:induction false} BalancedAlike(l: string, x: string, y: string, m: Mode, depth: int)
    requires Balanced(x, 0, Scan(m, l), depth + Nesting(m, l)) <==> Balanced(y, 0, Scan(m, l), depth + Nesting(m, l))
    ensures Balanced(l + x, 0, m, depth) <==> Balanced(l + y, 0, m, depth)
    decreases |l|
  {
    hide Balanced;
    if l == "" {
      assert l + x == x && l + y == y;
    } else {
      assert (l + x)[0] == l[0] == (l + y)[0] && (l + x)[1..] == l[1..] + x && (l + y)[1..] == l[1..] + y;
      BalancedUnfolds(l + x, m, depth);
      BalancedUnfolds(l + y, m, depth);
      BalancedAlike(l[1..], x, y, Next(m, l[0]), depth + Paren(m, l[0]));
    }
  }

  lemma {:induction false} BalancedPrefix(a: string, b: string, m: Mode, depth: nat)
    requires Balanced(a + b, 0, m, depth)
    ensures depth + Nesting(m, a) >= 0
    decreases |a|
  {
    hide Balanced;
    if a != "" {
      assert (a + b)[0] == a[0] && (a + b)[1..] == a[1..] + b;
      BalancedUnfolds(a + b, m, depth);
      BalancedPrefix(a[1..], b, Next(m, a[0]), depth + Paren(m, a[0]));
    }
  }

  /* Exchanging the text between two quotes. */

  /** Between the quote that ends `l` and the one that starts `r`, `y` and `z` leave the literals as they are and hold
      no parentheses; `z` holds no operators either. */
  ghost predicate IsSeam(l: string, y: string, r: string, z: string) {
    && l != "" && l[|l| - 1] == '"' && r != "" && r[0] == '"'
    && Scan(Scan(Plain, l), y) == Scan(Plain, l) == Scan(Scan(Plain, l), z)
    && Free(y, "()") && Free(z, "()") && Free(z, "|&")
  }

  lemma BackCut(y: string, r: string, m: Mode, d: int)
    requires r != "" && r[0] == '"' && Scan(m, y) == m && Free(y, "()")
    ensures Cut(y + r, m, d) == if Cut(y, m, d) < |y| then Cut(y, m, d) else |y| + Cut(r, m, d)
  {
    hide Cut, Scan, Nesting, Free;
    FlatNesting(m, y);
    QuotesApart("\"", "", y, r);
    CutThrough(y, r, m, d);
  }

  lemma FrameCut(l: string, y: string, r: string)
    requires l != "" && l[|l| - 1] == '"' && r != "" && r[0] == '"' && Scan(Scan(Plain, l), y) == Scan(Plain, l) &&
      Free(y, "()")
    ensures var m, d := Scan(Plain, l), Nesting(Plain, l);
      Cut(l + y + r, Plain, 0) ==
        if Cut(l, Plain, 0) < |l| then Cut(l, Plain, 0)
        else if Cut(y, m, d) < |y| then |l| + Cut(y, m, d)
        else |l| + |y| + Cut(r, m, d)
  {
    hide Cut, Scan, Nesting, Free, Apart;
    QuotesApart(l, y + r, "", r);
    LogQL.Regroup(l, y, r);
    CutThrough(l, y + r, Plain, 0);
    BackCut(y, r, Scan(Plain, l), Nesting(Plain, l));
  }

  lemma SliceFront(l: string, x: string, r: string, k: nat)
    requires k + 2 <= |l|
    ensures (l + x + r)[..k] == l[..k] && (l + x + r)[k + 2..] == l[k + 2..] + x + r
  {}

  lemma SliceMiddle(l: string, x: string, r: string, k: nat)
    requires k + 2 <= |x|
    ensures (l + x + r)[|l| + k + 2..] == x[k + 2..] + r
  {}

  lemma SliceBack(l: string, x: string, r: string, j: nat)
    requires j <= |r|
    ensures (l + x + r)[..|l| + |x| + j] == l + x + r[..j]
    ensures j + 2 <= |r| ==> (l + x + r)[|l| + |x| + j + 2..] == r[j + 2..]
  {}

  lemma ScanBehind(m: Mode, s: string, k: nat)
    requires k + 2 <= |s| && Scan(m, s[..k + 2]) == Plain
    ensures Scan(Plain, s[k + 2..]) == Scan(m, s)
  {
    ScanAppend(m, s[..k + 2], s[k + 2..]);
    assert s == s[..k + 2] + s[k + 2..];
  }

  /** Behind the first operator of the front, the seam is the same. */
  lemma SeamBehind(l: string, y: string, r: string, z: string, k: nat)
    requires IsSeam(l, y, r, z) && k == Cut(l, Plain, 0) < |l|
    ensures k + 2 < |l| && IsSeam(l[k + 2..], y, r, z)
  {
    CutIsOutside(l, Plain, 0);
    CutIsOperator(l, Plain, 0);
    ScanBehind(Plain, l, k);
    assert l[k + 1] in "|&" && l[|l| - 1] !in "|&";
    hide Cut, Scan, Free;
  }

  predicate AtCut(s: string, m: Mode, depth: int) {
    var k := Cut(s, m, depth); k + 2 <= |s| && s[k] in "|&" && s[k + 1] in "|&"
  }

  lemma {:induction false} CutIsOperator(s: string, m: Mode, depth: int)
    requires Cut(s, m, depth) < |s|
    ensures AtCut(s, m, depth)
    decreases |s|
  {
    if !AtOperator(s, m, depth) { CutIsOperator(s[1..], Next(m, s[0]), depth + Paren(m, s[0])); }
  }

  /** A text that reads goes on reading from an operator behind its front. */
  lemma {:induction false} ReadsBehind(y: string, r: string, m: Mode)
    requires Free(y, "()") && Scan(Plain, y) == m && r != "" && r[0] == '"' && Cut(r, m, 0) < |r|
    requires ParseOr(y + r).Some?
    ensures ParseOr(r[Cut(r, m, 0) + 2..]).Some?
    decreases |y|
  {
    hide Cut, Scan, Free, ParseOr, ParseAtom, Nesting;
    var k, j := Cut(y, Plain, 0), Cut(r, m, 0);
    FlatNesting(Plain, y);
    QuotesApart("\"", "", y, r);
    CutThrough(y, r, Plain, 0);
    FirstCut(y + r);
    assert y + r == "" + y + r == y + "" + r;
    if k < |y| {
      CutIsOutside(y, Plain, 0);
      FreeAppend(y[..k + 2], y[k + 2..], "()");
      ScanBehind(Plain, y, k);
      assert y == y[..k + 2] + y[k + 2..];
      SliceMiddle("", y, r, k);
      ReadsBehind(y[k + 2..], r, m);
    } else {
      SliceBack(y, "", r, j);
    }
  }

  lemma TrimFrame(l: string, x: string, r: string)
    requires l != "" && l[|l| - 1] == '"' && r != "" && r[0] == '"'
    ensures Trim(l + x + r, IsUnicodeSpace) == TrimLeft(l, IsUnicodeSpace) + x + TrimRight(r, IsUnicodeSpace)
  {
    hide TrimLeft, TrimRight;
    QuoteStays(l, r);
    TrimLeftThen(l, x + r, IsUnicodeSpace);
    var l' := TrimLeft(l, IsUnicodeSpace);
    LogQL.TrimRightThen(l' + x, r, IsUnicodeSpace);
    LogQL.Regroup(l', x, r);
    LogQL.Regroup(l, x, r);
  }

  /** A quote is no space. */
  lemma QuoteStays(l: string, r: string)
    requires l != "" && l[|l| - 1] == '"' && r != "" && r[0] == '"'
    ensures var l', r' := TrimLeft(l, IsUnicodeSpace), TrimRight(r, IsUnicodeSpace);
      && l' != "" && l'[|l'| - 1] == '"' && r' != "" && r'[0] == '"' && |l'| <= |l| && |r'| <= |r|
      && Scan(Plain, l') == Scan(Plain, l) && Nesting(Plain, l') == Nesting(Plain, l)
  {
    var before := TrimLeftParts(l, IsUnicodeSpace);
    var after := TrimRightParts(r, IsUnicodeSpace);
    var l', r' := TrimLeft(l, IsUnicodeSpace), TrimRight(r, IsUnicodeSpace);
    assert l[|l| - 1] == (before + l')[|l| - 1] && r[0] == (r' + after)[0];
    ScanAppend(Plain, before, l');
    NestingAppend(Plain, before, l');
    ScanSpaces(Plain, before);
    FlatNesting(Plain, before);
  }

  predicate IsParenthesised(t: string) { |t| >= 2 && t[0] == '(' && t[|t| - 1] == ')' && WellNested(t[1..|t| - 1]) }

  lemma AtomUnfolds(s: string, t: string)
    requires t == Trim(s, IsUnicodeSpace) && t != ""
    ensures ParseAtom(s) == if IsParenthesised(t) then ParseOr(t[1..|t| - 1]) else Some(Condition(t))
  {
    hide Trim, WellNested;
  }

  /** The inside of a parenthesised text. */
  lemma InsideFrame(l: string, x: string, r: string)
    requires l != "" && l[|l| - 1] == '"' && r != "" && r[0] == '"'
    ensures var t := l + x + r;
      if l[0] == '(' && r[|r| - 1] == ')'
      then |l| >= 2 && |r| >= 2 && t[1..|t| - 1] == l[1..] + x + r[..|r| - 1]
        && (IsParenthesised(t) <==> WellNested(l[1..] + x + r[..|r| - 1]))
      else !IsParenthesised(t)
  {
    var t := l + x + r;
    assert t[0] == l[0] && t[|t| - 1] == r[|r| - 1];
    hide WellNested;
  }

  lemma SeamInside(l: string, y: string, r: string, z: string)
    requires IsSeam(l, y, r, z) && l[0] == '(' && r[|r| - 1] == ')'
    ensures |l| >= 2 && |r| >= 2 && IsSeam(l[1..], y, r[..|r| - 1], z)
    ensures Nesting(Plain, l[1..]) == Nesting(Plain, l) - 1
  {
    hide Scan, Nesting, Free;
    ScansUnfold(l, Plain);
    assert l[1..][|l| - 2] == l[|l| - 1] && r[..|r| - 1][0] == r[0];
  }

  lemma NestedAlike(l: string, y: string, r: string, z: string)
    requires IsSeam(l, y, r, z)
    ensures WellNested(l + y + r) <==> WellNested(l + z + r)
  {
    var m, d := Scan(Plain, l), Nesting(Plain, l);
    hide Balanced, Scan, Nesting, Free;
    BalancedBehind(y, r, m, d);
    BalancedBehind(z, r, m, d);
    BalancedAlike(l, y + r, z + r, Plain, 0);
    assert l + y + r == l + (y + r) && l + z + r == l + (z + r);
  }

  /** Text that closes a parenthesis it does not open is not nested. */
  lemma ClosedTooEarly(inner: string, z: string, r: string)
    requires Nesting(Plain, inner) < 0
    ensures !WellNested(inner + z + r)
  {
    if WellNested(inner + z + r) {
      LogQL.Regroup(inner, z, r);
      BalancedPrefix(inner, z + r, Plain, 0);
    }
  }

  /** At depth zero the seam is inside no parentheses, so it is part of a condition. */
  lemma SeamIsCondition(l: string, z: string, r: string)
    requires l != "" && l[|l| - 1] == '"' && r != "" && r[0] == '"' && Nesting(Plain, l) == 0
    ensures ParseAtom(l + z + r).Some?
  {
    hide TrimLeft, TrimRight, Trim, ParseOr, ParseAtom, WellNested, IsParenthesised, Scan, Nesting;
    var l', r' := TrimLeft(l, IsUnicodeSpace), TrimRight(r, IsUnicodeSpace);
    QuoteStays(l, r);
    TrimFrame(l, z, r);
    InsideFrame(l', z, r');
    AtomUnfolds(l + z + r, l' + z + r');
    if l'[0] == '(' && r'[|r'| - 1] == ')' {
      ScansUnfold(l', Plain);
      ClosedTooEarly(l'[1..], z, r'[..|r'| - 1]);
    }
  }

  /** With other text between the quotes, an atom that reads still does. */
  lemma {:induction false} AtomReplaced(l: string, y: string, r: string, z: string)
    requires IsSeam(l, y, r, z) && ParseAtom(l + y + r).Some?
    ensures ParseAtom(l + z + r).Some?
    decreases |l| + |y| + |r|, 0
  {
    hide TrimLeft, TrimRight, Trim, ParseOr, ParseAtom, WellNested, IsParenthesised, Scan, Nesting, Free;
    var l', r' := TrimLeft(l, IsUnicodeSpace), TrimRight(r, IsUnicodeSpace);
    QuoteStays(l, r);
    TrimFrame(l, y, r);
    TrimFrame(l, z, r);
    InsideFrame(l', y, r');
    InsideFrame(l', z, r');
    AtomUnfolds(l + y + r, l' + y + r');
    AtomUnfolds(l + z + r, l' + z + r');
    if l'[0] == '(' && r'[|r'| - 1] == ')' {
      SeamInside(l', y, r', z);
      NestedAlike(l'[1..], y, r'[..|r'| - 1], z);
      if WellNested(l'[1..] + y + r'[..|r'| - 1]) { Replaced(l'[1..], y, r'[..|r'| - 1], z); }
    }
  }

  /** And so does a whole text. */
  lemma {:induction false} Replaced(l: string, y: string, r: string, z: string)
    requires IsSeam(l, y, r, z) && ParseOr(l + y + r).Some?
    ensures ParseOr(l + z + r).Some?
    decreases |l| + |y| + |r|, 1
  {
    hide Cut, ParseOr, ParseAtom, Scan, Nesting, Free;
    var m, d, k := Scan(Plain, l), Nesting(Plain, l), Cut(l, Plain, 0);
    NoOperatorNoCut(z, m, d);
    FrameCut(l, y, r);
    FrameCut(l, z, r);
    FirstCut(l + y + r);
    FirstCut(l + z + r);
    if k < |l| {
      SeamBehind(l, y, r, z, k);
      SliceFront(l, y, r, k);
      SliceFront(l, z, r, k);
      Replaced(l[k + 2..], y, r, z);
    } else if Cut(y, m, d) < |y| {
      CutInside(l, y, r, z);
    } else if Cut(r, m, d) < |r| {
      CutLater(l, y, r, z, Cut(r, m, d));
    } else {
      AtomReplaced(l, y, r, z);
    }
  }

  lemma {:induction false} CutLater(l: string, y: string, r: string, z: string, j: nat)
    requires IsSeam(l, y, r, z) && j == Cut(r, Scan(Plain, l), Nesting(Plain, l)) < |r|
    requires ParseAtom((l + y + r)[..|l| + |y| + j]).Some? && ParseOr((l + y + r)[|l| + |y| + j + 2..]).Some?
    ensures ParseAtom((l + z + r)[..|l| + |z| + j]).Some? && ParseOr((l + z + r)[|l| + |z| + j + 2..]).Some?
    decreases |l| + |y| + |r|, 0
  {
    QuoteFirst(r, Scan(Plain, l), Nesting(Plain, l));
    hide Cut, ParseOr, ParseAtom, Scan, Nesting, Free;
    SliceBack(l, y, r, j);
    SliceBack(l, z, r, j);
    AtomReplaced(l, y, r[..j], z);
  }

  /** When the old text between the quotes held an operator, the new one is part of a single condition. */
  lemma CutInside(l: string, y: string, r: string, z: string)
    requires IsSeam(l, y, r, z) && Cut(l, Plain, 0) == |l| && Cut(y, Scan(Plain, l), Nesting(Plain, l)) < |y|
    requires ParseOr(l + y + r).Some?
    ensures ParseOr(l + z + r).Some?
  {
    hide Cut, ParseOr, ParseAtom, Scan, Nesting, Free;
    var m, d := Scan(Plain, l), Nesting(Plain, l);
    var k, j := Cut(y, m, d), Cut(r, m, d);
    CutIsOutside(y, m, d);
    FreeAppend(y[..k], y[k..], "()");
    FreeAppend(y[..k + 2], y[k + 2..], "()");
    assert y == y[..k] + y[k..] && y == y[..k + 2] + y[k + 2..];
    FlatNesting(m, y[..k]);
    NoOperatorNoCut(z, m, d);
    ScanBehind(m, y, k);
    FrameCut(l, y, r);
    FrameCut(l, z, r);
    FirstCut(l + y + r);
    FirstCut(l + z + r);
    SliceMiddle(l, y, r, k);
    if j < |r| {
      ReadsBehind(y[k + 2..], r, m);
      SliceBack(l, z, r, j);
      QuoteFirst(r, m, d);
      SeamIsCondition(l, z, r[..j]);
    } else {
      SeamIsCondition(l, z, r);
    }
  }

  lemma QuoteFirst(r: string, m: Mode, depth: int)
    requires r != "" && r[0] == '"'
    ensures Cut(r, m, depth) > 0
  {}

  /* What a filter demands stands in its text, outside literals. */

  predicate Says(f: Filter, condition: string) {
    match f
    case Everything => false
    case Condition(text) => text == condition
    case And(l, r) => Says(l, condition) || Says(r, condition)
    case Or(l, r) => Says(l, condition) || Says(r, condition)
  }

  lemma {:induction false} DemandedIsSaid(f: Filter, condition: string)
    requires Demands(f, condition)
    ensures Says(f, condition)
    decreases f
  {
    match f
    case Everything =>
    case Condition(_) =>
    case And(l, r) => if Demands(l, condition) { DemandedIsSaid(l, condition); } else { DemandedIsSaid(r, condition); }
    case Or(l, r) => DemandedIsSaid(l, condition);
  }

  /** `c` stands in `s` with `before` characters in front of it, where no literal is open. */
  predicate StandsAt(s: string, before: nat, c: string) {
    before + |c| <= |s| && s[before..before + |c|] == c && Scan(Plain, s[..before]) == Plain
  }

  ghost predicate Stands(s: string, c: string) { exists i: nat :: StandsAt(s, i, c) }

  lemma PlaceInside(front: string, s: string, back: string, i: nat, n: nat)
    requires i + n <= |s|
    ensures var t, k := front + s + back, |front| + i; t[..k] == front + s[..i] && t[k..k + n] == s[i..i + n]
  {}

  /** It still does when the text is part of a longer one. */
  lemma StandsInside(front: string, s: string, back: string, c: string)
    requires Stands(s, c) && Scan(Plain, front) == Plain
    ensures Stands(front + s + back, c)
  {
    var i: nat :| StandsAt(s, i, c);
    hide Scan;
    ScanAppend(Plain, front, s[..i]);
    PlaceInside(front, s, back, i, |c|);
    assert StandsAt(front + s + back, |front| + i, c);
  }

  lemma StandsInPiece(s: string, i: nat, op: char, c: string)
    requires op in "|&" && i == FindOp(s, 0, op, Plain, 0) && i + 2 <= |s| &&
      (Stands(s[..i], c) || Stands(s[i + 2..], c))
    ensures Stands(s, c)
  {
    hide Stands, Scan, FindOp;
    FindIsOutside(s, op, Plain, 0);
    assert s == "" + s[..i] + s[i..] && s == s[..i + 2] + s[i + 2..] + "";
    NothingScans();
    if Stands(s[..i], c) { StandsInside("", s[..i], s[i..], c); } else { StandsInside(s[..i + 2], s[i + 2..], "", c); }
  }

  lemma NothingScans()
    ensures Scan(Plain, "") == Plain
  {}

  lemma {:induction false} SaidInOr(s: string, c: string)
    requires ParseOr(s).Some? && Says(ParseOr(s).value, c)
    ensures Stands(s, c)
    decreases |s|, 2
  {
    hide FindOp, Stands;
    var i := FindOp(s, 0, '|', Plain, 0);
    if i == |s| {
      SaidInAnd(s, c);
    } else {
      if Says(ParseAnd(s[..i]).value, c) { SaidInAnd(s[..i], c); } else { SaidInOr(s[i + 2..], c); }
      StandsInPiece(s, i, '|', c);
    }
  }

  lemma {:induction false} SaidInAnd(s: string, c: string)
    requires ParseAnd(s).Some? && Says(ParseAnd(s).value, c)
    ensures Stands(s, c)
    decreases |s|, 1
  {
    hide FindOp, Stands;
    var i := FindOp(s, 0, '&', Plain, 0);
    if i == |s| {
      SaidInAtom(s, c);
    } else {
      if Says(ParseAtom(s[..i]).value, c) { SaidInAtom(s[..i], c); } else { SaidInAnd(s[i + 2..], c); }
      StandsInPiece(s, i, '&', c);
    }
  }

  lemma {:induction false} SaidInAtom(s: string, c: string)
    requires ParseAtom(s).Some? && Says(ParseAtom(s).value, c)
    ensures Stands(s, c)
    decreases |s|, 0
  {
    var t := Trim(s, IsUnicodeSpace);
    var before, after := TrimParts(s, IsUnicodeSpace);
    TrimIsShorter(s);
    assert t != "";
    hide Trim, Scan, Stands, ParseOr, ParseAtom, IsParenthesised;
    ScanSpaces(Plain, before);
    AtomUnfolds(s, t);
    if IsParenthesised(t) {
      var inner := Inside(t);
      SaidInOr(inner, c);
      OpenScans();
      StandsInside("(", inner, ")", c);
    } else {
      StandsWhole(t);
    }
    hide All;
    StandsInside(before, t, after, c);
  }

  lemma Inside(t: string) returns (inner: string)
    requires IsParenthesised(t)
    ensures |t| >= 2 && inner == t[1..|t| - 1] && t == "(" + inner + ")"
  {
    inner := t[1..|t| - 1];
  }

  lemma OpenScans()
    ensures Scan(Plain, "(") == Plain
  {}

  lemma StandsWhole(t: string)
    ensures Stands(t, t)
  {
    NothingScans();
    assert t[0..|t|] == t && t[..0] == "";
    assert StandsAt(t, 0, t);
  }

  /* A cluster name longer than the query. */

  function LongName(query: string): string { seq(|query| + 1, _ => 'a') }

  predicate IsPlainName(name: string) { name != "" && AllWord(name) }

  lemma PlainNameIsPasteable(name: string)
    requires IsPlainName(name)
    ensures Pasteable([name]) && AlternationOf([name]) == name && Free(name, "()") && Free(name, "|&") &&
      Free(name, "\"`\\")
  {
    assert forall i | 0 <= i < |name| :: IsWord(name[i]);
    assert Safe(name) && Free(name, "`");
    QuoteIsPlain(name);
    assert QuoteAll([name]) == [name];
  }

  const CLUSTER := "resource.cluster =~ \""

  const NAMESPACE := "resource.namespace =~ \""

  /** The front of the output's first block, up to the quote that opens the pattern of the clusters. */
  function Front(existing: string): string { " (" + existing + (")" + (" && " + CLUSTER)) }

  /** What stands between that quote and the last one of the conditions. */
  function Patterns(cs: seq<string>, ns: seq<string>): string {
    AlternationOf(cs) + if ns == [] then "" else "\"" + (" && " + (NAMESPACE + AlternationOf(ns)))
  }

  lemma InjectionIs(cs: seq<string>, ns: seq<string>)
    ensures Injection(Conditions(cs, ns)) == " && " + CLUSTER + Patterns(cs, ns) + "\""
  {
    var p, q := AlternationOf(cs), AlternationOf(ns);
    var c, n := CLUSTER + p + "\"", NAMESPACE + q + "\"";
    hide AlternationOf;
    if ns == [] {
      assert Conditions(cs, ns) == [c] && Join([c], " && ") == c;
      assert " && " + c == " && " + CLUSTER + (p + "") + "\"";
    } else {
      assert Conditions(cs, ns) == [c, n] && [c, n][1..] == [n] && Join([n], " && ") == n;
      assert Join([c, n], " && ") == c + " && " + n;
      BothInjected(CLUSTER, p, NAMESPACE, q, "\"", " && ");
    }
  }

  lemma BothInjected(a: string, p: string, b: string, q: string, quote: string, op: string)
    ensures op + (a + p + quote + op + (b + q + quote)) == op + a + (p + (quote + (op + (b + q)))) + quote
  {}

  lemma PaddedIs(existing: string, cs: seq<string>, ns: seq<string>)
    requires existing != ""
    ensures " " + Body(existing, Conditions(cs, ns)) + " " == Front(existing) + Patterns(cs, ns) + "\" "
  {
    BodyIs(existing, Conditions(cs, ns));
    InjectionIs(cs, ns);
    assert "\"" + " " == "\" " && " " + "(" == " (";
    hide Injection, Patterns, Body, Conditions;
    FrontPieces(existing, " && " + CLUSTER, Patterns(cs, ns));
  }

  lemma FrontPieces(existing: string, c: string, y: string)
    ensures " " + (Enclosed(existing) + (c + y + "\"")) + " " == " (" + existing + (")" + c) + y + "\" "
  {}

  lemma ParenthesisScans(m: Mode)
    requires m != Plain
    ensures Scan(m, ")" + " && ") == StillOpen(m)
  {
    ScanOrdinary(StillOpen(m), " && ");
    assert (")" + " && ")[1..] == " && ";
  }

  lemma NameScans(m: Mode, name: string)
    requires (m == Plain || m == InString || m == InRaw) && Free(name, "\"`\\")
    ensures Scan(m, name + "\"") == Next(m, '"')
  {
    ScanOrdinary(m, name);
    ScanAppend(m, name, "\"");
    assert Scan(m, "\"") == Next(m, '"');
  }

  lemma Operands()
    ensures CLUSTER == "resource.cluster =~ " + "\"" && Free("resource.cluster =~ ", "\"`\\")
    ensures NAMESPACE == "resource.namespace =~ " + "\"" && Free("resource.namespace =~ ", "\"`\\")
    ensures Free(CLUSTER, "()") && Free(NAMESPACE, "()")
  {}

  /** In front of the pasted condition the literal is still open; the quote of its pattern closes it, or is raw. */
  lemma FrontScans(existing: string)
    requires Scan(Plain, existing) != Plain
    ensures Scan(Plain, " (" + existing + (")" + " && ")) == StillOpen(Scan(Plain, existing))
    ensures Scan(Plain, Front(existing)) == Next(StillOpen(Scan(Plain, existing)), '"')
    ensures Front(existing) != "" && Front(existing)[|Front(existing)| - 1] == '"'
  {
    var m := Scan(Plain, existing);
    Operands();
    hide Scan, Free;
    OpenFront(existing);
    ScanAppend(Plain, " (" + existing, ")" + " && ");
    ParenthesisScans(m);
    NameScans(StillOpen(m), "resource.cluster =~ ");
    ScanAppend(Plain, " (" + existing + (")" + " && "), CLUSTER);
    assert " (" + existing + (")" + " && ") + CLUSTER == Front(existing);
  }

  lemma PatternPasses(names: seq<string>, m: Mode)
    requires Pasteable(names) && m != AfterBackslash
    ensures Scan(m, AlternationOf(names)) == m && Free(AlternationOf(names), "()")
  {
    PatternIsPasteable(names);
    var p := AlternationOf(names);
    assert Free(p, "\"`\\") by { forall i | 0 <= i < |p| ensures p[i] !in "\"`\\" { assert p[i] !in "\"\n\\{}()`"; } }
    assert Free(p, "()") by { forall i | 0 <= i < |p| ensures p[i] !in "()" { assert p[i] !in "\"\n\\{}()`"; } }
    ScanOrdinary(m, p);
  }

  lemma BetweenScans(m: Mode)
    requires m == Plain || m == InRaw
    ensures Scan(m, "\"" + (" && " + NAMESPACE)) == m && Free("\"" + (" && " + NAMESPACE), "()")
  {
    Operands();
    ScanOrdinary(Next(m, '"'), " && ");
    assert Scan(m, "\"") == Next(m, '"') && Free("\"", "()") && Free(" && ", "()");
    hide Scan, Free;
    NameScans(Next(m, '"'), "resource.namespace =~ ");
    ScanAppend(Next(m, '"'), " && ", NAMESPACE);
    ScanAppend(m, "\"", " && " + NAMESPACE);
    FreeAppend("\"", " && " + NAMESPACE, "()");
    FreeAppend(" && ", NAMESPACE, "()");
  }

  lemma PatternsPass(cs: seq<string>, ns: seq<string>, m: Mode)
    requires Pasteable(cs) && Pasteable(ns) && (m == Plain || m == InRaw)
    ensures Scan(m, Patterns(cs, ns)) == m && Free(Patterns(cs, ns), "()")
  {
    hide Scan, Free, AlternationOf, Pasteable;
    var p, q, open := AlternationOf(cs), AlternationOf(ns), "\"" + (" && " + NAMESPACE);
    PatternPasses(cs, m);
    PatternPasses(ns, m);
    BetweenScans(m);
    ScanAppend(m, p, open + q);
    ScanAppend(m, open, q);
    FreeAppend(p, open + q, "()");
    FreeAppend(open, q, "()");
    assert p + "" == p && open + q == "\"" + (" && " + (NAMESPACE + q));
  }

  /** A whole block with other text between the quotes. */
  lemma BlockReplaced(l: string, y: string, r: string, z: string)
    requires IsSeam(l, y, r, z) && ParseFilter(l + y + r).Some?
    ensures ParseFilter(l + z + r).Some?
  {
    var l', r' := TrimLeft(l, IsUnicodeSpace), TrimRight(r, IsUnicodeSpace);
    QuoteStays(l, r);
    TrimFrame(l, y, r);
    TrimFrame(l, z, r);
    hide TrimLeft, TrimRight, Trim, ParseOr, WellNested, Scan, Nesting, Free;
    NestedAlike(l', y, r', z);
    Replaced(l', y, r', z);
  }

  /* The output of a query whose first braces cut a literal. */

  ghost predicate CutsLiteral(query: string) { Leading(query).Some? && Scan(Plain, Leading(query).value.0) != Plain }

  function Existing(query: string): string
    requires Leading(query).Some?
  {
    Trim(Leading(query).value.0, IsUnicodeSpace)
  }

  /** Where a reader finds the end of the output's first block: it goes on in what was the tail. */
  function BlockEnd(query: string): nat
    requires Leading(query).Some?
  {
    var (block, tail) := Leading(query).value;
    Close(tail, Code(StillOpen(Scan(Plain, block))), false)
  }

  /** The rest of that block, from the last quote of the conditions on. */
  function Back(query: string): string
    requires Leading(query).Some? && BlockEnd(query) <= |Leading(query).value.1|
  {
    "\" }" + Leading(query).value.1[..BlockEnd(query)]
  }

  lemma CutOutput(query: string, cs: seq<string>, ns: seq<string>)
    requires CutsLiteral(query) && cs != [] && Pasteable(cs) && Pasteable(ns)
    ensures ScopeTraceQL(query, cs, ns).Ok? && Existing(query) != "" && Scan(Plain, Existing(query)) != Plain
    ensures BlockEnd(query) <= |Leading(query).value.1|
    ensures StillOpen(Scan(Plain, Existing(query))) == StillOpen(Scan(Plain, Leading(query).value.0))
    ensures var tail, j := Leading(query).value.1, BlockEnd(query);
      BracedBlock(ScopeTraceQL(query, cs, ns).value, false)
        == if j == |tail| then None else Some((Front(Existing(query)) + Patterns(cs, ns) + Back(query), tail[j + 1..]))
  {
    var (block, tail) := Leading(query).value;
    PlaceIsScan(Plain, block);
    OutputBraces(query, cs, ns);
    SwallowedPadding(query, cs, ns);
    ScanTrimmed(block);
    assert Scan(Plain, "") == Plain;
    hide ScopeTraceQL, Leading, BracedBlock, Close, Scan, Trim, PlaceAfter, Patterns, Front, Body, Conditions;
    PaddedIs(Existing(query), cs, ns);
    BackPieces(Front(Existing(query)) + Patterns(cs, ns), tail[..BlockEnd(query)]);
  }

  lemma BackPieces(front: string, post: string)
    ensures front + "\" " + "}" + post == front + ("\" }" + post)
  {
    assert "\" " + "}" == "\" }";
  }

  lemma FilterOf(query: string)
    ensures ParseSpanset(query) == match BracedBlock(query, false)
      case None => None
      case Some((block, tail)) => match ParseFilter(block) case None => None case Some(f) => Some((f, tail))
  {
    hide ParseFilter, BracedBlock;
  }

  lemma OutputSeam(query: string, cs: seq<string>, ns: seq<string>, name: string)
    requires CutsLiteral(query) && cs != [] && Pasteable(cs) && Pasteable(ns) && IsPlainName(name)
    ensures BlockEnd(query) <= |Leading(query).value.1|
    ensures IsSeam(Front(Existing(query)), Patterns(cs, ns), Back(query), name)
  {
    CutOutput(query, cs, ns);
    var m := Next(StillOpen(Scan(Plain, Existing(query))), '"');
    PlainNameIsPasteable(name);
    assert Back(query)[0] == '"';
    hide ScopeTraceQL, Leading, BracedBlock, BlockEnd, Scan, Trim, Patterns, Front, Pasteable, Free, Existing, Back;
    FrontScans(Existing(query));
    PatternsPass(cs, ns, m);
    ScanOrdinary(m, name);
  }

  /** When the output reads under some grants, it reads under those of any one plain name. */
  lemma CutReadsAlike(query: string, cs: seq<string>, ns: seq<string>, name: string)
    requires CutsLiteral(query) && cs != [] && Pasteable(cs) && Pasteable(ns) && IsPlainName(name)
    requires ScopeTraceQL(query, cs, ns).Ok? && ParseSpanset(ScopeTraceQL(query, cs, ns).value).Some?
    ensures ScopeTraceQL(query, [name], []).Ok? && ParseSpanset(ScopeTraceQL(query, [name], []).value).Some?
    ensures ParseSpanset(ScopeTraceQL(query, [name], []).value).value.1 ==
      ParseSpanset(ScopeTraceQL(query, cs, ns).value).value.1
  {
    PlainNameIsPasteable(name);
    assert Patterns([name], []) == name + "" == name && Pasteable([]);
    hide ScopeTraceQL, Leading, BracedBlock, BlockEnd, Scan, Trim, Patterns, Front, Pasteable, Free, Existing, Back,
      ParseSpanset, ParseFilter;
    CutOutput(query, cs, ns);
    CutOutput(query, [name], []);
    OutputSeam(query, cs, ns, name);
    FilterOf(ScopeTraceQL(query, cs, ns).value);
    FilterOf(ScopeTraceQL(query, [name], []).value);
    BlockReplaced(Front(Existing(query)), Patterns(cs, ns), Back(query), name);
  }

  /** Where a text with a long run of one letter can hold that run between quotes. */
  lemma OneRun(front: string, n: nat, back: string, mark: nat, i: nat)
    requires front != "" && front[|front| - 1] == '"' && back != "" && back[0] == '"'
    requires var t := front + seq(n, _ => 'a') + back;
      1 <= i && i + n < |t| && t[i - 1] == '"' && (forall k | i <= k < i + n :: t[k] == 'a') && t[i + n] == '"'
    requires |back| <= n && mark <= |front| && mark < n && forall k | mark <= k < |front| :: front[k] != 'a'
    ensures i == |front|
  {
    var t, f := front + seq(n, _ => 'a') + back, |front|;
    assert t[f - 1] == '"' && t[f + n] == '"';
    assert forall k | f <= k < f + n :: t[k] == 'a';
    assert forall k | 0 <= k < f :: t[k] == front[k];
    assert n > 0 ==> t[i + n - 1] == 'a';
  }

  lemma FrontMarks(existing: string)
    ensures var front := Front(existing);
      && |front| == |existing| + 28 && front[|front| - 1] == '"'
      && (forall k | 2 + |existing| <= k < |front| :: front[k] != 'a')
      && front[..|front| - 21] == " (" + existing + (")" + " && ")
  {
    var fixed := ")" + (" && " + CLUSTER);
    assert |fixed| == 26 && fixed[25] == '"' && forall k | 0 <= k < 26 :: fixed[k] != 'a';
    assert fixed[..5] == ")" + " && ";
    var front := " (" + existing + fixed;
    assert forall k | 2 + |existing| <= k < |front| :: front[k] == fixed[k - 2 - |existing|];
  }

  /** Where the condition on one long name can stand: only where it is pasted. */
  lemma PastedPlace(existing: string, n: nat, back: string, i: nat)
    requires |existing| + 2 < n && back != "" && back[0] == '"' && |back| <= n
    requires AlternationOf([seq(n, _ => 'a')]) == seq(n, _ => 'a')
    requires var t, c := Front(existing) + seq(n, _ => 'a') + back, ClusterCondition([seq(n, _ => 'a')]);
      i + |c| <= |t| && t[i..i + |c|] == c
    ensures i + 21 == |Front(existing)|
  {
    var name, front := seq(n, _ => 'a'), Front(existing);
    var c := ClusterCondition([name]);
    ConditionMarks(name);
    FrontMarks(existing);
    assert forall k | 21 <= k < 21 + n :: c[k] == 'a';
    hide Front, ClusterCondition, AlternationOf;
    Window(front + name + back, i, c, n);
    OneRun(front, n, back, 2 + |existing|, i + 21);
  }

  lemma PastedIsInside(existing: string, n: nat, back: string, i: nat)
    requires Scan(Plain, existing) != Plain && i + 21 == |Front(existing)|
    ensures Scan(Plain, (Front(existing) + seq(n, _ => 'a') + back)[..i]) != Plain
  {
    var name, front := seq(n, _ => 'a'), Front(existing);
    FrontScans(existing);
    FrontMarks(existing);
    hide Front, Scan;
    LogQL.Regroup(front, name, back);
    FrontOf(front, name + back, i);
  }

  /** The condition on one long name stands nowhere but where it is pasted, which is inside a literal. */
  lemma PastedStandsNowhere(existing: string, n: nat, back: string)
    requires Scan(Plain, existing) != Plain && |existing| + 2 < n && back != "" && back[0] == '"' && |back| <= n
    requires AlternationOf([seq(n, _ => 'a')]) == seq(n, _ => 'a')
    ensures !Stands(Front(existing) + seq(n, _ => 'a') + back, ClusterCondition([seq(n, _ => 'a')]))
  {
    var t, c := Front(existing) + seq(n, _ => 'a') + back, ClusterCondition([seq(n, _ => 'a')]);
    hide Front, ClusterCondition, AlternationOf, Scan;
    if Stands(t, c) {
      var i: nat :| StandsAt(t, i, c);
      PastedPlace(existing, n, back, i);
      PastedIsInside(existing, n, back, i);
    }
  }

  lemma FrontOf(a: string, b: string, i: nat)
    requires i <= |a|
    ensures (a + b)[..i] == a[..i]
  {}

  /** A run between two quotes, where it stands. */
  lemma Window(t: string, i: nat, c: string, n: nat)
    requires i + |c| <= |t| && t[i..i + |c|] == c
    requires |c| == 22 + n && c[20] == '"' && c[21 + n] == '"' && forall k | 21 <= k < 21 + n :: c[k] == 'a'
    ensures t[i + 20] == '"' && t[i + 21 + n] == '"' && forall k | i + 21 <= k < i + 21 + n :: t[k] == 'a'
  {
    forall j | 0 <= j < |c| ensures t[i + j] == c[j] { assert t[i..i + |c|][j] == t[i + j]; }
    forall k | i + 21 <= k < i + 21 + n ensures t[k] == 'a' {
      assert t[i + (k - i)] == c[k - i];
    }
  }

  lemma ConditionMarks(name: string)
    requires AlternationOf([name]) == name
    ensures var c := ClusterCondition([name]);
      |c| == 22 + |name| && c[20] == '"' && c[21 + |name|] == '"' &&
        forall k | 21 <= k < 21 + |name| :: c[k] == name[k - 21]
  {
    assert ClusterCondition([name]) == "resource.cluster =~ \"" + name + "\"";
  }

  /** With a cluster name longer than the query, an output that reads is not confined. */
  lemma CutIsNotConfined(query: string)
    requires CutsLiteral(query)
    ensures Pasteable([LongName(query)]) && ScopeTraceQL(query, [LongName(query)], []).Ok?
    ensures var output := ParseSpanset(ScopeTraceQL(query, [LongName(query)], []).value);
      output.Some? ==> !Confined(output.value.0, [LongName(query)], [])
  {
    var name := LongName(query);
    var n, c := |query| + 1, ClusterCondition([name]);
    PlainNameIsPasteable(name);
    assert Patterns([name], []) == name + "" == name && Pasteable([]);
    hide ScopeTraceQL, Leading, BracedBlock, BlockEnd, Scan, Trim, Patterns, Front, Pasteable, Free, ParseSpanset,
      ParseFilter, ClusterCondition;
    CutOutput(query, [name], []);
    var output := ScopeTraceQL(query, [name], []).value;
    FilterOf(output);
    if ParseSpanset(output).Some? {
      var block, f := Front(Existing(query)) + name + Back(query), ParseSpanset(output).value.0;
      QueryIsLonger(query);
      PastedStandsNowhere(Existing(query), n, Back(query));
      ConfinedIsDemanding(f, [name], []);
      if Demands(f, c) { DemandedStands(block, f, c); }
    }
  }

  /** What is kept of the query is shorter than it. */
  lemma QueryIsLonger(query: string)
    requires Leading(query).Some? && BlockEnd(query) <= |Leading(query).value.1|
    ensures |Existing(query)| + 2 < |query| + 1 && |Back(query)| <= |query| + 1 && Back(query) != "" &&
      Back(query)[0] == '"'
  {
    var (block, tail) := Leading(query).value;
    LeadingText(query);
    var cut := TrimLeftParts(query, IsRegexpSpace);
    var before, after := TrimParts(block, IsUnicodeSpace);
  }

  lemma DemandedStands(block: string, f: Filter, c: string)
    requires ParseFilter(block) == Some(f) && Demands(f, c)
    ensures Stands(block, c)
  {
    var t := Trim(block, IsUnicodeSpace);
    var before, after := TrimParts(block, IsUnicodeSpace);
    DemandedIsSaid(f, c);
    ScanSpaces(Plain, before);
    hide Trim, Stands;
    if t != "" {
      SaidInOr(t, c);
      StandsInside(before, t, after, c);
    }
  }

  /* Every text the code accepts. */

  predicate AreGrants(cs: seq<string>, ns: seq<string>) { cs != [] && Pasteable(cs) && Pasteable(ns) }

  function Output(query: string, cs: seq<string>, ns: seq<string>): string
    requires Leading(query).Some? && cs != []
  {
    ScopeTraceQL(query, cs, ns).value
  }

  /** The output for one cluster named `a`. */
  function Probe(query: string): string
    requires Leading(query).Some?
  {
    Output(query, ["a"], [])
  }

  /** Whatever the grants, an output that reads is confined to them. */
  ghost predicate AlwaysConfined(query: string)
    requires Leading(query).Some?
  {
    forall cs, ns | AreGrants(cs, ns) ::
      var output := ParseSpanset(Output(query, cs, ns));
      output.Some? ==> Confined(output.value.0, cs, ns)
  }

  /** Whatever the grants, all spansets of an output that reads are confined to them. */
  ghost predicate AlwaysAllConfined(query: string)
    requires Leading(query).Some?
  {
    forall cs, ns | AreGrants(cs, ns) ::
      var output := Spansets(Output(query, cs, ns));
      output.Some? ==> AllConfined(output.value, cs, ns)
  }

  /** The first braces cut no literal, and the text in them closes off no disjunct. */
  ghost predicate IsEnclosed(query: string)
    requires Leading(query).Some?
  {
    Scan(Plain, Leading(query).value.0) == Plain && Earlier(Existing(query)) == []
  }

  lemma ProbeIsGranted()
    ensures AreGrants(["a"], []) && IsPlainName("a")
  {
    PlainNameIsPasteable("a");
  }

  /** A disjunct that the text closes off does not demand the grants that it has not foreseen. */
  lemma UnforeseenGrants(query: string) returns (cs: seq<string>)
    requires Leading(query).Some? && Scan(Plain, Leading(query).value.0) == Plain && Reads(Existing(query))
    requires Earlier(Existing(query)) != []
    ensures AreGrants(cs, []) && ParseSpanset(Output(query, cs, [])).Some?
    ensures !Confined(ParseSpanset(Output(query, cs, [])).value.0, cs, [])
  {
    hide ScopeTraceQL, Leading, Scan, Trim, Pasteable, ParseSpanset, Confined, DemandsAll, Earlier, Reads, ParseAnd;
    var d := Earlier(Existing(query))[0];
    EarlierRead(Existing(query));
    assert d in Earlier(Existing(query));
    cs := UnforeseenCluster(ParseAnd(d).value);
    NoNames();
    ScopedSpansetReads(query, cs, [], _ => true);
    WhenConfined(query, cs, []);
    NotAllDemanded(ParseAnd(d).value, cs);
  }

  lemma NoNames()
    ensures Pasteable([])
  {}

  lemma NotAllDemanded(f: Filter, cs: seq<string>)
    requires !Demands(f, ClusterCondition(cs))
    ensures !DemandsAll(f, cs, [])
  {}

  /** Main theorem: for every text that the code accepts, the first spanset of the output is confined to the grants,
      whatever they are, just when the output for a single plain name does not read, or the first braces cut no literal
      and the text in them closes off no disjunct. */
  lemma ConfinedWhateverTheGrants(query: string)
    requires Leading(query).Some?
    ensures AlwaysConfined(query) <==> ParseSpanset(Probe(query)).None? || IsEnclosed(query)
  {
    hide ScopeTraceQL, Leading, Scan, Trim, Pasteable, ParseSpanset, Confined, Earlier, Reads;
    ProbeIsGranted();
    NoNames();
    if Scan(Plain, Leading(query).value.0) == Plain {
      ScopedSpansetReads(query, ["a"], [], _ => true);
      forall cs, ns | AreGrants(cs, ns)
        ensures ParseSpanset(Output(query, cs, ns)).Some? <==> Reads(Existing(query)) {
        ScopedSpansetReads(query, cs, ns, _ => true);
      }
      if Earlier(Existing(query)) == [] {
        forall cs, ns | AreGrants(cs, ns) && ParseSpanset(Output(query, cs, ns)).Some?
          ensures Confined(ParseSpanset(Output(query, cs, ns)).value.0, cs, ns) {
          WhenConfined(query, cs, ns);
        }
      } else if Reads(Existing(query)) {
        var cs := UnforeseenGrants(query);
      }
    } else {
      CutIsAlways(query);
    }
  }

  lemma CutIsAlways(query: string)
    requires CutsLiteral(query)
    ensures AlwaysConfined(query) <==> ParseSpanset(Probe(query)).None?
  {
    hide ScopeTraceQL, Leading, Scan, Trim, Pasteable, ParseSpanset, Confined;
    ProbeIsGranted();
    NoNames();
    CutIsNotConfined(query);
    CutOutput(query, ["a"], []);
    if ParseSpanset(Probe(query)).Some? {
      CutReadsAlike(query, ["a"], [], LongName(query));
      assert AreGrants([LongName(query)], []);
    } else {
      forall cs, ns | AreGrants(cs, ns) ensures ParseSpanset(Output(query, cs, ns)).None? {
        CutOutput(query, cs, ns);
        if ParseSpanset(Output(query, cs, ns)).Some? { CutReadsAlike(query, cs, ns, "a"); }
      }
    }
  }

  lemma SpansetsOf(query: string)
    ensures Spansets(query).Some? <==> ParseSpanset(query).Some? && Further(ParseSpanset(query).value.1).Some?
    ensures Spansets(query).Some? ==> ParseSpanset(query).value.0 in Spansets(query).value
  {
    hide ParseSpanset, Further;
  }

  /** Main theorem: for every text that the code accepts, the whole output is confined to the grants, whatever they are,
      just when the output for a single plain name does not read, or the first braces cut no literal, the text in them
      closes off no disjunct, and no further spanset follows. */
  lemma WholeQueryWhateverTheGrants(query: string)
    requires Leading(query).Some?
    ensures
      var tail := Leading(query).value.1;
      AlwaysAllConfined(query) <==>
        Spansets(Probe(query)).None? || (IsEnclosed(query) && Opening(tail, Plain) == |tail|)
  {
    if Scan(Plain, Leading(query).value.0) == Plain {
      ClosedIsAlwaysAll(query);
    } else {
      CutIsAlwaysAll(query);
    }
  }

  lemma CutIsAlwaysAll(query: string)
    requires CutsLiteral(query)
    ensures AlwaysAllConfined(query) <==> Spansets(Probe(query)).None?
  {
    hide ScopeTraceQL, Leading, Scan, Trim, Pasteable, ParseSpanset, Spansets, Further, Confined;
    ProbeIsGranted();
    NoNames();
    CutIsNotConfined(query);
    CutOutput(query, ["a"], []);
    SpansetsOf(Probe(query));
    if Spansets(Probe(query)).Some? {
      CutReadsAlike(query, ["a"], [], LongName(query));
      SpansetsOf(Output(query, [LongName(query)], []));
      assert AreGrants([LongName(query)], []);
    } else {
      forall cs, ns | AreGrants(cs, ns) ensures Spansets(Output(query, cs, ns)).None? {
        CutOutput(query, cs, ns);
        SpansetsOf(Output(query, cs, ns));
        if ParseSpanset(Output(query, cs, ns)).Some? { CutReadsAlike(query, cs, ns, "a"); }
      }
    }
  }

  lemma ClosedIsAlwaysAll(query: string)
    requires Leading(query).Some? && Scan(Plain, Leading(query).value.0) == Plain
    ensures
      var tail := Leading(query).value.1;
      AlwaysAllConfined(query) <==>
        Spansets(Probe(query)).None? || (Earlier(Existing(query)) == [] && Opening(tail, Plain) == |tail|)
  {
    var tail := Leading(query).value.1;
    NothingMore(tail);
    hide ScopeTraceQL, Leading, Scan, Trim, Pasteable, ParseSpanset, Spansets, Further, Confined, DemandsAll, Earlier,
      Reads, Opening;
    ProbeIsGranted();
    NoNames();
    WholeQueryConfined(query, ["a"], []);
    forall cs, ns | AreGrants(cs, ns)
      ensures Spansets(Output(query, cs, ns)).Some? <==> Reads(Existing(query)) && Further(tail).Some? {
      WholeQueryConfined(query, cs, ns);
    }
    if Spansets(Probe(query)).Some? {
      if Earlier(Existing(query)) != [] {
        var cs := UnforeseenGrants(query);
        WholeQueryConfined(query, cs, []);
      } else if Further(tail).value != [] {
        var cs := UnforeseenCluster(Further(tail).value[0]);
        WholeQueryConfined(query, cs, []);
        NotDemanded(Further(tail).value, cs);
        assert AreGrants(cs, []);
      } else {
        forall cs, ns | AreGrants(cs, ns) ensures AllConfined(Spansets(Output(query, cs, ns)).value, cs, ns) {
          WhenConfined(query, cs, ns);
          WholeQueryConfined(query, cs, ns);
        }
      }
    }
  }

  lemma NothingMore(tail: string)
    ensures Further(tail).Some? ==> (Further(tail).value == [] <==> Opening(tail, Plain) == |tail|)
  {
    hide ParseSpanset, Opening;
  }
}
