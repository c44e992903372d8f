/** Where `to_snake_case` puts its underscores in a camel-case name made of a
    lower-case prefix, an acronym and capitalised words, and worked cases.
    Each result is put together from the general lemmas of `SnakeCase`:
    where a substitution's scan cannot cross a seam, the pieces on either
    side are rewritten on their own. */
module SnakeCaseExamples {
  import opened Text
  import opened SnakeCase

  predicate Lowers(xs: seq<Sym>) {
    forall i :: 0 <= i < |xs| ==> IsLower(CharOf(xs[i]))
  }

  predicate Uppers(xs: seq<Sym>) {
    forall i :: 0 <= i < |xs| ==> IsUpper(CharOf(xs[i]))
  }

  /** A capitalised word: an upper-case letter and at least one lower-case one. */
  predicate Capital(xs: seq<Sym>) {
    |xs| >= 2 && IsUpper(CharOf(xs[0])) && forall i :: 1 <= i < |xs| ==> IsLower(CharOf(xs[i]))
  }

  predicate NoPairs(xs: seq<Sym>) {
    forall i :: 0 <= i < |xs| - 1 ==> !CamelPair(xs[i], xs[i + 1])
  }

  /** A lower-case prefix `p`, an acronym `a` and two capitalised words `u`
      and `v` come out as four lower-case words joined by underscores. */
  lemma AcronymThenWords(p: string, a: string, u: string, v: string)
    requires |p| >= 1 && forall i :: 0 <= i < |p| ==> IsLower(p[i])
    requires |a| >= 1 && forall i :: 0 <= i < |a| ==> IsUpper(a[i])
    requires |u| >= 2 && IsUpper(u[0]) && forall i :: 1 <= i < |u| ==> IsLower(u[i])
    requires |v| >= 2 && IsUpper(v[0]) && forall i :: 1 <= i < |v| ==> IsLower(v[i])
    ensures IsAscii(p + a + u + v)
    ensures ToSnakeCase(p + a + u + v) == Lower(p) + "_" + Lower(a) + "_" + Lower(u) + "_" + Lower(v)
  {
    var name := p + a + u + v;
    assert forall i :: 0 <= i < |name| ==> IsLower(name[i]) || IsUpper(name[i]);
    MarkAppend(p + a + u, v);
    MarkAppend(p + a, u);
    MarkAppend(p, a);
    var P, A, U, V := Mark(p), Mark(a), Mark(u), Mark(v);
    AcronymWords(P, A, U, V);
    AcronymCamel(P, A, U, V);
    AcronymRender(p, a, u, v);
  }

  /** The first substitution inserts one underscore, between the acronym and
      the first capitalised word. Its scan resumes right after that word, so
      the second word gets no underscore from it. */
  lemma AcronymWords(P: seq<Sym>, A: seq<Sym>, U: seq<Sym>, V: seq<Sym>)
    requires |P| >= 1 && Lowers(P) && |A| >= 1 && Uppers(A) && Capital(U) && Capital(V)
    ensures SplitWords(P + A + U + V) == P + A + [Ins] + U + V
  {
    var A0, x := A[..|A| - 1], A[|A| - 1];
    var L := P + A0;
    var R := [x] + U + V;
    Snoc(A);
    Regroup4(P, A0, x, U, V);
    LeftNoMatch(P, A0);
    assert R[0] == x && R[1] == U[0];
    SplitWordsAppend(L, R);
    RightRun(x, U, V);
    Regroup5(P, A0, x, Ins, U, V);
  }

  lemma Regroup4<T>(P: seq<T>, A0: seq<T>, x: T, U: seq<T>, V: seq<T>)
    ensures P + (A0 + [x]) + U + V == (P + A0) + ([x] + U + V)
  {
  }

  lemma Regroup5<T>(P: seq<T>, A0: seq<T>, x: T, i: T, U: seq<T>, V: seq<T>)
    ensures (P + A0) + ([x, i] + U + V) == P + (A0 + [x]) + [i] + U + V
  {
  }

  /** No match in lower-case letters followed by upper-case ones. */
  lemma LeftNoMatch(P: seq<Sym>, B: seq<Sym>)
    requires Lowers(P) && Uppers(B)
    ensures SplitWords(P + B) == P + B
  {
    var L := P + B;
    forall i | 0 <= i < |L| - 2
      ensures !WordStart(L[i], L[i + 1], L[i + 2])
    {
      if i + 2 < |P| {
        assert L[i + 1] == P[i + 1];
      } else {
        assert L[i + 2] == B[i + 2 - |P|];
      }
    }
    SplitWordsNoMatch(L);
  }

  lemma RightRun(x: Sym, U: seq<Sym>, V: seq<Sym>)
    requires IsUpper(CharOf(x)) && Capital(U) && Capital(V)
    ensures SplitWords([x] + U + V) == [x, Ins] + U + V
  {
    var R := [x] + U + V;
    var j := 1 + |U|;
    assert R[1..j] == U && R[j..] == V;
    assert forall i :: 2 <= i < j ==> R[i] == U[i - 1];
    assert R[j] == V[0];
    SplitWordsRun(R, j);
    SplitWordsNoMatch(V);
  }

  /** The second substitution inserts underscores where the lower-case prefix
      meets the acronym and where the first word meets the second. */
  lemma AcronymCamel(P: seq<Sym>, A: seq<Sym>, U: seq<Sym>, V: seq<Sym>)
    requires |P| >= 1 && Lowers(P) && |A| >= 1 && Uppers(A) && Capital(U) && Capital(V)
    ensures SplitCamel(P + A + [Ins] + U + V) == P + [Ins] + A + [Ins] + U + [Ins] + V
  {
    assert NoPairs(P) && NoPairs(A) && NoPairs(U) && NoPairs(V);
    CamelJoin(P, A);
    CamelJoin(U, V);
    var PA, UV := P + A, U + V;
    assert PA[|PA| - 1] == A[|A| - 1];
    SplitCamelNoPair([Ins]);
    SplitCamelAppend([Ins], UV);
    SplitCamelAppend(PA, [Ins] + UV);
    Regroup6(P, A, Ins, U, V);
    Regroup7(P, A, Ins, U, V);
  }

  lemma Regroup6<T>(P: seq<T>, A: seq<T>, i: T, U: seq<T>, V: seq<T>)
    ensures P + A + [i] + U + V == (P + A) + ([i] + (U + V))
  {
  }

  lemma Regroup7<T>(P: seq<T>, A: seq<T>, i: T, U: seq<T>, V: seq<T>)
    ensures (P + [i] + A) + ([i] + (U + [i] + V)) == P + [i] + A + [i] + U + [i] + V
  {
  }

  /** Two pieces without an inner `[a-z0-9][A-Z]` pair that form one where
      they meet get exactly one underscore, there. */
  lemma CamelJoin(X: seq<Sym>, Y: seq<Sym>)
    requires |X| >= 1 && |Y| >= 1 && NoPairs(X) && NoPairs(Y)
    requires CamelPair(X[|X| - 1], Y[0])
    ensures SplitCamel(X + Y) == X + [Ins] + Y
  {
    var X0, x := X[..|X| - 1], X[|X| - 1];
    var T := [x] + Y;
    Snoc(X);
    Assoc3(X0, [x], Y);
    assert forall i :: 0 <= i < |X0| ==> X0[i] == X[i];
    SplitCamelNoPair(X0);
    SplitCamelAppend(X0, T);
    assert T[2..] == Y[1..];
    assert forall i :: 0 <= i < |Y| - 1 ==> Y[1..][i] == Y[i + 1];
    SplitCamelNoPair(Y[1..]);
    assert SplitCamel(T) == [x, Ins, Y[0]] + SplitCamel(T[2..]);
    Cons(Y);
    Regroup(X0, x, Ins, Y[0], Y[1..]);
  }

  lemma Snoc<T>(X: seq<T>)
    requires |X| >= 1
    ensures X == X[..|X| - 1] + [X[|X| - 1]]
  {
  }

  lemma Cons<T>(Y: seq<T>)
    requires |Y| >= 1
    ensures Y == [Y[0]] + Y[1..]
  {
  }

  lemma Regroup<T>(X0: seq<T>, x: T, i: T, y: T, Y1: seq<T>)
    ensures X0 + ([x, i, y] + Y1) == (X0 + [x]) + [i] + ([y] + Y1)
  {
  }

  lemma AcronymRender(p: string, a: string, u: string, v: string)
    ensures Render(LowerAll(Mark(p) + [Ins] + Mark(a) + [Ins] + Mark(u) + [Ins] + Mark(v)))
         == Lower(p) + "_" + Lower(a) + "_" + Lower(u) + "_" + Lower(v)
  {
    var P, A, U, V := Mark(p), Mark(a), Mark(u), Mark(v);
    RenderLowerAppend(P + [Ins] + A + [Ins] + U + [Ins], V);
    RenderLowerAppend(P + [Ins] + A + [Ins] + U, [Ins]);
    RenderLowerAppend(P + [Ins] + A + [Ins], U);
    RenderLowerAppend(P + [Ins] + A, [Ins]);
    RenderLowerAppend(P + [Ins], A);
    RenderLowerAppend(P, [Ins]);
    RenderLowerMark(p);
    RenderLowerMark(a);
    RenderLowerMark(u);
    RenderLowerMark(v);
    assert Render(LowerAll([Ins])) == "_";
  }

  /** An acronym in the middle of a camel-case name. */
  lemma AcronymInCamelCase()
    ensures ToSnakeCase("getHTTPResponseCode") == "get_http_response_code"
  {
    AcronymThenWords("get", "HTTP", "Response", "Code");
    AcronymPieces();
    AcronymLowered();
  }

  lemma AcronymPieces()
    ensures ToSnakeCase("getHTTPResponseCode") == ToSnakeCase("get" + "HTTP" + "Response" + "Code")
  {
    assert "getHTTPResponseCode" == "get" + "HTTP" + "Response" + "Code";
  }

  lemma AcronymLowered()
    ensures Lower("get") + "_" + Lower("HTTP") + "_" + Lower("Response") + "_" + Lower("Code")
         == "get_http_response_code"
  {
  }

  /** `.` in `(.)([A-Z][a-z]+)` does not match a newline, so a capitalised
      word at the start of a line gets no underscore. */
  lemma NewlineBlocksWordSplit()
    ensures ToSnakeCase("A\nBc") == "a\nbc"
  {
    var xs := Mark("A\nBc");
    SplitWordsNoMatch(xs);
    SplitCamelNoPair(xs);
  }

  /** Any other character before the capitalised word does get one. */
  lemma WordSplitAfterLetter()
    ensures ToSnakeCase("AxBc") == "ax_bc"
  {
    var xs := Mark("AxBc");
    SplitWordsSkip(xs);
    SplitWordsRun(xs[1..], 3);
    assert xs[1..][3..] == [];
    var w := [Orig('A'), Orig('x'), Ins, Orig('B'), Orig('c')];
    assert SplitWords(xs) == w;
    SplitCamelNoPair(w);
  }
}
