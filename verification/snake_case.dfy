/** `to_snake_case` of datasets/utils.py: two regular-expression substitutions,
    `(.)([A-Z][a-z]+)` and then `([a-z0-9])([A-Z])`, each replaced by `\1_\2`,
    followed by `lower()`. Each substitution is a left-to-right scan that resumes
    after the end of every match, as `re.sub` does. The scans run on marked
    symbols so that the underscores they insert stay distinguishable from the
    underscores of the input. */
module SnakeCase {
  import opened Text

  /** A character of the input, or an underscore inserted by a substitution. */
  datatype Sym = Orig(c: char) | Ins

  function CharOf(x: Sym): char {
    match x
    case Orig(c) => c
    case Ins => '_'
  }

  /** The string the marked symbols spell. */
  function Render(xs: seq<Sym>): (s: string)
    ensures |s| == |xs|
    ensures forall i :: 0 <= i < |xs| ==> s[i] == CharOf(xs[i])
  {
    seq(|xs|, i requires 0 <= i < |xs| => CharOf(xs[i]))
  }

  /** The input characters among the symbols: what is left after deleting
      every inserted underscore. */
  function Originals(xs: seq<Sym>): (s: string)
    ensures |s| <= |xs|
  {
    if |xs| == 0 then []
    else
      match xs[0]
      case Orig(c) => [c] + Originals(xs[1..])
      case Ins => Originals(xs[1..])
  }

  function Mark(s: string): (xs: seq<Sym>)
    ensures |xs| == |s|
    ensures forall i :: 0 <= i < |s| ==> xs[i] == Orig(s[i])
  {
    seq(|s|, i requires 0 <= i < |s| => Orig(s[i]))
  }

  /** The length of the greedy `[a-z]+` run at the start of `xs` (zero if none). */
  function LowerRun(xs: seq<Sym>): (k: nat)
    ensures k <= |xs|
    ensures forall i :: 0 <= i < k ==> IsLower(CharOf(xs[i]))
    ensures k < |xs| ==> !IsLower(CharOf(xs[k]))
  {
    if |xs| == 0 || !IsLower(CharOf(xs[0])) then 0 else 1 + LowerRun(xs[1..])
  }

  /** `(.)[A-Z][a-z]`: the first pattern can match at `a`; `.` is any
      character but a newline. */
  predicate WordStart(a: Sym, b: Sym, c: Sym) {
    CharOf(a) != '\n' && IsUpper(CharOf(b)) && IsLower(CharOf(c))
  }

  /** `[a-z0-9][A-Z]`: the second pattern matches at `a`. */
  predicate CamelPair(a: Sym, b: Sym) {
    (IsLower(CharOf(a)) || IsDigit(CharOf(a))) && IsUpper(CharOf(b))
  }

  /** `re.sub('(.)([A-Z][a-z]+)', r'\1_\2', ...)`: `.` is any character but a
      newline, and the scan resumes after the lower-case run. */
  function SplitWords(xs: seq<Sym>): (ys: seq<Sym>)
    ensures |ys| >= |xs|
    decreases |xs|
  {
    if |xs| == 0 then []
    else if |xs| >= 3 && WordStart(xs[0], xs[1], xs[2]) then
      var j := 2 + LowerRun(xs[2..]);
      [xs[0], Ins] + xs[1..j] + SplitWords(xs[j..])
    else [xs[0]] + SplitWords(xs[1..])
  }

  /** `re.sub('([a-z0-9])([A-Z])', r'\1_\2', ...)`. */
  function SplitCamel(xs: seq<Sym>): (ys: seq<Sym>)
    ensures |ys| >= |xs|
    decreases |xs|
  {
    if |xs| == 0 then []
    else if |xs| >= 2 && CamelPair(xs[0], xs[1]) then
      [xs[0], Ins, xs[1]] + SplitCamel(xs[2..])
    else [xs[0]] + SplitCamel(xs[1..])
  }

  /** `lower()` restricted to ASCII, applied to every symbol. */
  function LowerAll(xs: seq<Sym>): (ys: seq<Sym>)
    ensures |ys| == |xs|
    ensures forall i :: 0 <= i < |xs| ==> ys[i] == (if xs[i].Orig? then Orig(ToLower(xs[i].c)) else Ins)
  {
    seq(|xs|, i requires 0 <= i < |xs| => if xs[i].Orig? then Orig(ToLower(xs[i].c)) else Ins)
  }

  function Lower(s: string): (l: string)
    ensures |l| == |s|
    ensures forall i :: 0 <= i < |s| ==> l[i] == ToLower(s[i])
  {
    seq(|s|, i requires 0 <= i < |s| => ToLower(s[i]))
  }

  /** The marked result of `to_snake_case`: its input characters, lower-cased,
      with the inserted underscores among them. */
  function SnakeMarks(name: string): (m: seq<Sym>)
    ensures Originals(m) == Lower(name)
    ensures |m| >= |name|
    ensures |name| > 0 ==> |m| > 0 && m[0] == Orig(ToLower(name[0]))
  {
    PipelineFacts(name);
    LowerAll(SplitCamel(SplitWords(Mark(name))))
  }

  lemma PipelineFacts(name: string)
    ensures var m := LowerAll(SplitCamel(SplitWords(Mark(name))));
      && Originals(m) == Lower(name)
      && |m| >= |name|
      && (|name| > 0 ==> |m| > 0 && m[0] == Orig(ToLower(name[0])))
  {
    OriginalsMark(name);
    SplitWordsKeepsOriginals(Mark(name));
    SplitCamelKeepsOriginals(SplitWords(Mark(name)));
    LowerAllOriginals(SplitCamel(SplitWords(Mark(name))));
    if |name| > 0 {
      SplitWordsFirst(Mark(name));
      SplitCamelFirst(SplitWords(Mark(name)));
    }
  }

  /** `to_snake_case(name)` for an ASCII name. */
  function ToSnakeCase(name: string): (r: string)
    requires IsAscii(name)
    ensures forall i :: 0 <= i < |r| ==> !IsUpper(r[i])
    ensures |r| >= |name|
    ensures |name| > 0 ==> r[0] == ToLower(name[0])
  {
    Render(SnakeMarks(name))
  }

  /** Deleting from the result exactly the underscores the substitutions
      inserted gives back the lower-cased input. */
  lemma SnakeCaseErasesToLower(name: string)
    requires IsAscii(name)
    ensures Render(SnakeMarks(name)) == ToSnakeCase(name)
    ensures Originals(SnakeMarks(name)) == Lower(name)
  {
  }

  /** A name without upper-case letters comes back unchanged. */
  lemma NoUpperUnchanged(name: string)
    requires IsAscii(name)
    requires forall i :: 0 <= i < |name| ==> !IsUpper(name[i])
    ensures ToSnakeCase(name) == name
  {
    var xs := Mark(name);
    SplitWordsNoUpper(xs);
    SplitCamelNoUpper(xs);
    assert LowerAll(xs) == xs;
    assert Render(xs) == name;
  }

  lemma {:induction false} OriginalsMark(s: string)
    ensures Originals(Mark(s)) == s
    decreases |s|
  {
    if |s| > 0 {
      assert Mark(s)[1..] == Mark(s[1..]);
      OriginalsMark(s[1..]);
    }
  }

  lemma {:induction false} OriginalsAppend(xs: seq<Sym>, ys: seq<Sym>)
    ensures Originals(xs + ys) == Originals(xs) + Originals(ys)
    decreases |xs|
  {
    if |xs| == 0 {
      assert xs + ys == ys;
    } else {
      assert (xs + ys)[1..] == xs[1..] + ys;
      OriginalsAppend(xs[1..], ys);
    }
  }

  /** The first substitution only inserts underscores. */
  lemma {:induction false} SplitWordsKeepsOriginals(xs: seq<Sym>)
    ensures Originals(SplitWords(xs)) == Originals(xs)
    ensures |SplitWords(xs)| >= |xs|
    decreases |xs|
  {
    if |xs| == 0 {
    } else if |xs| >= 3 && WordStart(xs[0], xs[1], xs[2]) {
      var j := 2 + LowerRun(xs[2..]);
      SplitWordsKeepsOriginals(xs[j..]);
      InsertAfterFirst(xs, j, SplitWords(xs[j..]));
    } else {
      SplitWordsKeepsOriginals(xs[1..]);
      OriginalsAppend([xs[0]], SplitWords(xs[1..]));
      OriginalsAppend([xs[0]], xs[1..]);
      assert [xs[0]] + xs[1..] == xs;
    }
  }

  /** Putting an underscore after the first symbol of `xs[..j]` and following
      it with `tail` keeps the input characters of `xs[..j]` and of `tail`. */
  lemma InsertAfterFirst(xs: seq<Sym>, j: nat, tail: seq<Sym>)
    requires 1 <= j <= |xs|
    requires Originals(tail) == Originals(xs[j..])
    ensures Originals([xs[0], Ins] + xs[1..j] + tail) == Originals(xs)
    ensures |[xs[0], Ins] + xs[1..j] + tail| >= |xs| || |tail| < |xs[j..]|
  {
    var head := [xs[0], Ins] + xs[1..j];
    OriginalsAppend(head, tail);
    assert head[1..] == [Ins] + xs[1..j];
    assert head[1..][1..] == xs[1..j];
    assert Originals(head) == Originals([xs[0]] + xs[1..j]) by {
      assert ([xs[0]] + xs[1..j])[1..] == xs[1..j];
    }
    assert [xs[0]] + xs[1..j] == xs[..j];
    OriginalsAppend(xs[..j], xs[j..]);
    assert xs[..j] + xs[j..] == xs;
  }

  /** The second substitution only inserts underscores. */
  lemma {:induction false} SplitCamelKeepsOriginals(xs: seq<Sym>)
    ensures Originals(SplitCamel(xs)) == Originals(xs)
    ensures |SplitCamel(xs)| >= |xs|
    decreases |xs|
  {
    if |xs| == 0 {
    } else if |xs| >= 2 && CamelPair(xs[0], xs[1]) {
      SplitCamelKeepsOriginals(xs[2..]);
      OriginalsAppend([xs[0], Ins, xs[1]], SplitCamel(xs[2..]));
      OriginalsAppend([xs[0], xs[1]], xs[2..]);
      assert [xs[0], xs[1]] + xs[2..] == xs;
      assert Originals([xs[0], Ins, xs[1]]) == Originals([xs[0], xs[1]]);
    } else {
      SplitCamelKeepsOriginals(xs[1..]);
      OriginalsAppend([xs[0]], SplitCamel(xs[1..]));
      OriginalsAppend([xs[0]], xs[1..]);
      assert [xs[0]] + xs[1..] == xs;
    }
  }

  lemma {:induction false} LowerAllOriginals(xs: seq<Sym>)
    ensures Originals(LowerAll(xs)) == Lower(Originals(xs))
    decreases |xs|
  {
    if |xs| > 0 {
      assert LowerAll(xs)[1..] == LowerAll(xs[1..]);
      LowerAllOriginals(xs[1..]);
    }
  }

  lemma SplitWordsFirst(xs: seq<Sym>)
    requires |xs| > 0
    ensures |SplitWords(xs)| > 0 && SplitWords(xs)[0] == xs[0]
  {
  }

  lemma SplitCamelFirst(xs: seq<Sym>)
    requires |xs| > 0
    ensures |SplitCamel(xs)| > 0 && SplitCamel(xs)[0] == xs[0]
  {
  }

  /** Without an upper-case letter the first substitution finds no match. */
  lemma {:induction false} SplitWordsNoUpper(xs: seq<Sym>)
    requires forall i :: 0 <= i < |xs| ==> !IsUpper(CharOf(xs[i]))
    ensures SplitWords(xs) == xs
    decreases |xs|
  {
    if |xs| > 0 {
      SplitWordsNoUpper(xs[1..]);
    }
  }

  /** Without an upper-case letter the second substitution finds no match. */
  lemma {:induction false} SplitCamelNoUpper(xs: seq<Sym>)
    requires forall i :: 0 <= i < |xs| ==> !IsUpper(CharOf(xs[i]))
    ensures SplitCamel(xs) == xs
    decreases |xs|
  {
    if |xs| > 0 {
      SplitCamelNoUpper(xs[1..]);
    }
  }

  /** The number of `[a-z0-9][A-Z]` pairs among adjacent symbols. */
  function CamelPairs(xs: seq<Sym>): nat
    decreases |xs|
  {
    if |xs| < 2 then 0 else (if CamelPair(xs[0], xs[1]) then 1 else 0) + CamelPairs(xs[1..])
  }

  /** The second substitution inserts exactly one underscore per adjacent
      `[a-z0-9][A-Z]` pair of its input (such pairs never overlap). */
  lemma {:induction false} SplitCamelCount(xs: seq<Sym>)
    ensures |SplitCamel(xs)| == |xs| + CamelPairs(xs)
    decreases |xs|
  {
    if |xs| >= 2 && CamelPair(xs[0], xs[1]) {
      SplitCamelCount(xs[2..]);
      assert xs[1..][1..] == xs[2..];
      assert |xs| > 2 ==> !CamelPair(xs[1], xs[2]);
    } else if |xs| > 0 {
      SplitCamelCount(xs[1..]);
    }
  }

  /** After the second substitution no `[a-z0-9][A-Z]` pair is left adjacent. */
  lemma {:induction false} SplitCamelNoPairLeft(xs: seq<Sym>)
    ensures forall p :: 0 <= p < |SplitCamel(xs)| - 1 ==> !CamelPair(SplitCamel(xs)[p], SplitCamel(xs)[p + 1])
    decreases |xs|
  {
    var ys := SplitCamel(xs);
    if |xs| >= 2 && CamelPair(xs[0], xs[1]) {
      var rest := SplitCamel(xs[2..]);
      SplitCamelNoPairLeft(xs[2..]);
      assert ys == [xs[0], Ins, xs[1]] + rest;
      if |xs| > 2 {
        SplitCamelFirst(xs[2..]);
      }
      forall p | 0 <= p < |ys| - 1
        ensures !CamelPair(ys[p], ys[p + 1])
      {
        if p >= 3 {
          assert ys[p] == rest[p - 3] && ys[p + 1] == rest[p - 2];
        }
      }
    } else if |xs| > 0 {
      var rest := SplitCamel(xs[1..]);
      SplitCamelNoPairLeft(xs[1..]);
      assert ys == [xs[0]] + rest;
      if |xs| > 1 {
        SplitCamelFirst(xs[1..]);
      }
      forall p | 0 <= p < |ys| - 1
        ensures !CamelPair(ys[p], ys[p + 1])
      {
        if p >= 1 {
          assert ys[p] == rest[p - 1] && ys[p + 1] == rest[p];
        }
      }
    }
  }

  predicate AllOrig(xs: seq<Sym>) {
    forall i :: 0 <= i < |xs| ==> xs[i].Orig?
  }

  /** Every underscore in `ys` sits where `(.)([A-Z][a-z]+)` can match: after
      a character other than a newline and before an upper-case letter followed
      by a lower-case one. */
  predicate UnderscoresBeforeWords(ys: seq<Sym>) {
    forall p :: 0 <= p < |ys| && ys[p] == Ins ==> 1 <= p && p + 2 < |ys| && UnderscoredWord(ys[p - 1 .. p + 3])
  }

  /** `w` is a character, an underscore, and the start of a match after it. */
  predicate UnderscoredWord(w: seq<Sym>) {
    |w| == 4 && w[1] == Ins && WordStart(w[0], w[2], w[3])
  }

  /** On input characters, the first substitution puts an underscore only
      where its pattern matches. */
  lemma {:induction false} SplitWordsInsertsBeforeWords(xs: seq<Sym>)
    requires AllOrig(xs)
    ensures UnderscoresBeforeWords(SplitWords(xs))
    decreases |xs|
  {
    if |xs| == 0 {
    } else if |xs| >= 3 && WordStart(xs[0], xs[1], xs[2]) {
      var j := 2 + LowerRun(xs[2..]);
      SplitWordsInsertsBeforeWords(xs[j..]);
      MatchUnderscores(xs[0], xs[1..j], SplitWords(xs[j..]));
    } else {
      SplitWordsInsertsBeforeWords(xs[1..]);
      PrependUnderscores(xs[0], SplitWords(xs[1..]));
    }
  }

  /** An input character put in front keeps underscores where they were. */
  lemma PrependUnderscores(x: Sym, rest: seq<Sym>)
    requires x.Orig? && UnderscoresBeforeWords(rest)
    ensures UnderscoresBeforeWords([x] + rest)
  {
    var ys := [x] + rest;
    forall p | 0 <= p < |ys| && ys[p] == Ins
      ensures 1 <= p && p + 2 < |ys| && UnderscoredWord(ys[p - 1 .. p + 3])
    {
      var q := p - 1;
      assert rest[q] == Ins;
      assert ys[p - 1 .. p + 3] == rest[q - 1 .. q + 3];
    }
  }

  /** A match `x0` `mid`, with the underscore put after `x0`, keeps underscores
      where the pattern matches. */
  lemma MatchUnderscores(x0: Sym, mid: seq<Sym>, rest: seq<Sym>)
    requires x0.Orig? && AllOrig(mid) && |mid| >= 2 && WordStart(x0, mid[0], mid[1])
    requires UnderscoresBeforeWords(rest)
    ensures UnderscoresBeforeWords([x0, Ins] + mid + rest)
  {
    var ys := [x0, Ins] + mid + rest;
    var j := |mid| + 2;
    forall p | 0 <= p < |ys| && ys[p] == Ins
      ensures 1 <= p && p + 2 < |ys| && UnderscoredWord(ys[p - 1 .. p + 3])
    {
      if p == 0 {
      } else if p == 1 {
        assert ys[0 .. 4] == [x0, Ins, mid[0], mid[1]];
      } else if p < j {
        assert false;
      } else {
        var q := p - j;
        assert rest[q] == Ins;
        assert ys[p - 1 .. p + 3] == rest[q - 1 .. q + 3];
      }
    }
  }

  /** Every underscore in `ys` sits inside a `[a-z0-9][A-Z]` pair. */
  predicate UnderscoresInPairs(ys: seq<Sym>) {
    forall p :: 0 <= p < |ys| && ys[p] == Ins ==> 1 <= p && p + 1 < |ys| && PairedUnderscore(ys[p - 1 .. p + 2])
  }

  /** `w` is a `[a-z0-9]` symbol, an underscore and a `[A-Z]` symbol. */
  predicate PairedUnderscore(w: seq<Sym>) {
    |w| == 3 && w[1] == Ins && CamelPair(w[0], w[2])
  }

  /** On input characters, the second substitution puts an underscore only
      between the two symbols of a `[a-z0-9][A-Z]` pair. */
  lemma {:induction false} SplitCamelInsertsInPairs(xs: seq<Sym>)
    requires AllOrig(xs)
    ensures UnderscoresInPairs(SplitCamel(xs))
    decreases |xs|
  {
    if |xs| == 0 {
    } else if |xs| >= 2 && CamelPair(xs[0], xs[1]) {
      SplitCamelInsertsInPairs(xs[2..]);
      PairUnderscores(xs[0], xs[1], SplitCamel(xs[2..]));
    } else {
      SplitCamelInsertsInPairs(xs[1..]);
      PrependPairs(xs[0], SplitCamel(xs[1..]));
    }
  }

  lemma PrependPairs(x: Sym, rest: seq<Sym>)
    requires x.Orig? && UnderscoresInPairs(rest)
    ensures UnderscoresInPairs([x] + rest)
  {
    var ys := [x] + rest;
    forall p | 0 <= p < |ys| && ys[p] == Ins
      ensures 1 <= p && p + 1 < |ys| && PairedUnderscore(ys[p - 1 .. p + 2])
    {
      var q := p - 1;
      assert rest[q] == Ins;
      assert ys[p - 1 .. p + 2] == rest[q - 1 .. q + 2];
    }
  }

  lemma PairUnderscores(x0: Sym, x1: Sym, rest: seq<Sym>)
    requires x0.Orig? && x1.Orig? && CamelPair(x0, x1) && UnderscoresInPairs(rest)
    ensures UnderscoresInPairs([x0, Ins, x1] + rest)
  {
    var ys := [x0, Ins, x1] + rest;
    forall p | 0 <= p < |ys| && ys[p] == Ins
      ensures 1 <= p && p + 1 < |ys| && PairedUnderscore(ys[p - 1 .. p + 2])
    {
      if p == 1 {
        assert ys[0 .. 3] == [x0, Ins, x1];
      } else {
        var q := p - 3;
        assert rest[q] == Ins;
        assert ys[p - 1 .. p + 2] == rest[q - 1 .. q + 2];
      }
    }
  }

  /** Every underscore in `xs` is followed by `[A-Z][a-z]`, and a symbol before
      it is not a newline: the context the first substitution leaves. */
  predicate WordsAhead(xs: seq<Sym>) {
    forall p :: 0 <= p < |xs| && xs[p] == Ins ==> WordAhead(xs, p)
  }

  predicate WordAhead(xs: seq<Sym>, p: nat)
    requires p < |xs|
  {
    && p + 2 < |xs| && IsUpper(CharOf(xs[p + 1])) && IsLower(CharOf(xs[p + 2]))
    && (p >= 1 ==> CharOf(xs[p - 1]) != '\n')
  }

  /** Every underscore in `ys` sits inside a `[a-z0-9][A-Z]` pair or in front
      of a capitalised word. */
  predicate PairsOrWords(ys: seq<Sym>) {
    forall p :: 0 <= p < |ys| ==> PairOrWord(ys, p)
  }

  predicate PairOrWord(ys: seq<Sym>, p: nat)
    requires p < |ys|
  {
    ys[p] == Ins ==> (1 <= p && p + 1 < |ys| && CamelPair(ys[p - 1], ys[p + 1])) || WordAhead(ys, p)
  }

  /** The second substitution leaves the underscores of the first one where
      they were: an underscore is never part of a `[a-z0-9][A-Z]` match, and
      neither is the capital letter after it, so the word context of every
      existing underscore survives, and every new one sits in its pair. */
  lemma {:induction false} SplitCamelKeepsWords(xs: seq<Sym>)
    requires WordsAhead(xs)
    ensures PairsOrWords(SplitCamel(xs))
    decreases |xs|
  {
    if |xs| == 0 {
    } else if |xs| >= 2 && CamelPair(xs[0], xs[1]) {
      WordsAheadSuffix(xs, 2);
      SplitCamelKeepsWords(xs[2..]);
      PairKeepsWords(xs[0], xs[1], SplitCamel(xs[2..]));
    } else {
      WordsAheadSuffix(xs, 1);
      SplitCamelKeepsWords(xs[1..]);
      var rest := SplitCamel(xs[1..]);
      if |xs| >= 2 {
        SplitCamelFirst(xs[1..]);
        assert rest[0] == Ins ==> WordAhead(xs, 1);
      }
      if xs[0] == Ins {
        assert WordAhead(xs, 0);
        assert xs[1..][1..] == xs[2..];
        SplitCamelFirst(xs[2..]);
      }
      PrependKeepsWords(xs[0], rest);
    }
  }

  lemma WordsAheadSuffix(xs: seq<Sym>, k: nat)
    requires WordsAhead(xs) && k <= |xs|
    ensures WordsAhead(xs[k..])
  {
    var s := xs[k..];
    forall q | 0 <= q < |s| && s[q] == Ins
      ensures WordAhead(s, q)
    {
      assert xs[q + k] == Ins && WordAhead(xs, q + k);
    }
  }

  lemma PairKeepsWords(x0: Sym, x1: Sym, rest: seq<Sym>)
    requires CamelPair(x0, x1) && PairsOrWords(rest)
    ensures PairsOrWords([x0, Ins, x1] + rest)
  {
    var ys := [x0, Ins, x1] + rest;
    forall p | 0 <= p < |ys|
      ensures PairOrWord(ys, p)
    {
      if p >= 3 && ys[p] == Ins {
        var q := p - 3;
        assert rest[q] == Ins && PairOrWord(rest, q);
        if 1 <= q && q + 1 < |rest| && CamelPair(rest[q - 1], rest[q + 1]) {
          assert ys[p - 1] == rest[q - 1] && ys[p + 1] == rest[q + 1];
        } else {
          assert WordAhead(rest, q);
          assert ys[p + 1] == rest[q + 1] && ys[p + 2] == rest[q + 2];
        }
      }
    }
  }

  lemma PrependKeepsWords(x: Sym, rest: seq<Sym>)
    requires PairsOrWords(rest)
    requires |rest| > 0 && rest[0] == Ins ==> CharOf(x) != '\n'
    requires x == Ins ==> |rest| >= 2 && IsUpper(CharOf(rest[0])) && IsLower(CharOf(rest[1]))
    ensures PairsOrWords([x] + rest)
  {
    var ys := [x] + rest;
    forall p | 0 <= p < |ys|
      ensures PairOrWord(ys, p)
    {
      if p >= 1 && ys[p] == Ins {
        var q := p - 1;
        assert rest[q] == Ins && PairOrWord(rest, q);
        if 1 <= q && q + 1 < |rest| && CamelPair(rest[q - 1], rest[q + 1]) {
          assert ys[p - 1] == rest[q - 1] && ys[p + 1] == rest[q + 1];
        } else {
          assert WordAhead(rest, q);
          assert ys[p + 1] == rest[q + 1] && ys[p + 2] == rest[q + 2];
        }
      }
    }
  }

  /** Every underscore in `m` sits between a `[a-z0-9]` and a `[A-Z]`
      symbol, or after a symbol other than a newline and in front of a
      capitalised word. */
  predicate UnderscoresPlaced(m: seq<Sym>) {
    forall p :: 0 <= p < |m| && m[p] == Ins ==>
      && 1 <= p
      && ((p + 1 < |m| && PairedUnderscore(m[p - 1 .. p + 2])) || (p + 2 < |m| && UnderscoredWord(m[p - 1 .. p + 3])))
  }

  /** Across both substitutions, every underscore `to_snake_case` inserts sits
      where one of the two patterns matched. The lower-casing that follows
      keeps the inserted underscores where they are. */
  lemma SnakeCasePlacesUnderscores(name: string)
    ensures UnderscoresPlaced(SplitCamel(SplitWords(Mark(name))))
    ensures var m := SplitCamel(SplitWords(Mark(name)));
      && |SnakeMarks(name)| == |m|
      && forall p :: 0 <= p < |m| ==> (SnakeMarks(name)[p] == Ins <==> m[p] == Ins)
  {
    var xs := Mark(name);
    var w := SplitWords(xs);
    SplitWordsInsertsBeforeWords(xs);
    WordsAheadOf(w);
    SplitCamelKeepsWords(w);
    if |name| > 0 {
      SplitWordsFirst(xs);
      SplitCamelFirst(w);
    }
    PlacedOf(SplitCamel(w));
  }

  lemma WordsAheadOf(w: seq<Sym>)
    requires UnderscoresBeforeWords(w)
    ensures WordsAhead(w)
  {
    forall p | 0 <= p < |w| && w[p] == Ins
      ensures WordAhead(w, p)
    {
      var u := w[p - 1 .. p + 3];
      assert UnderscoredWord(u);
      assert u[0] == w[p - 1] && u[2] == w[p + 1] && u[3] == w[p + 2];
    }
  }

  lemma PlacedOf(m: seq<Sym>)
    requires PairsOrWords(m) && (|m| > 0 ==> m[0] != Ins)
    ensures UnderscoresPlaced(m)
  {
    forall p | 0 <= p < |m| && m[p] == Ins
      ensures 1 <= p
      ensures (p + 1 < |m| && PairedUnderscore(m[p - 1 .. p + 2])) || (p + 2 < |m| && UnderscoredWord(m[p - 1 .. p + 3]))
    {
      assert PairOrWord(m, p);
      if 1 <= p && p + 1 < |m| && CamelPair(m[p - 1], m[p + 1]) {
        assert m[p - 1 .. p + 2] == [m[p - 1], m[p], m[p + 1]];
      } else {
        assert WordAhead(m, p);
        assert m[p - 1 .. p + 3] == [m[p - 1], m[p], m[p + 1], m[p + 2]];
      }
    }
  }

  /** A run of `k` lower-case letters followed by anything else has length `k`. */
  lemma {:induction false} LowerRunExact(xs: seq<Sym>, k: nat)
    requires k <= |xs| && forall i :: 0 <= i < k ==> IsLower(CharOf(xs[i]))
    requires k == |xs| || !IsLower(CharOf(xs[k]))
    ensures LowerRun(xs) == k
    decreases k
  {
    if k > 0 {
      assert forall i :: 0 <= i < k - 1 ==> xs[1..][i] == xs[i + 1];
      LowerRunExact(xs[1..], k - 1);
    }
  }

  /** One step of the first substitution where its pattern matches at the
      start, with `j` the end of the greedy lower-case run. */
  lemma SplitWordsAt(xs: seq<Sym>, j: nat)
    requires |xs| >= 3 && WordStart(xs[0], xs[1], xs[2]) && j == 2 + LowerRun(xs[2..])
    ensures SplitWords(xs) == [xs[0], Ins] + xs[1..j] + SplitWords(xs[j..])
  {
  }

  /** A lower-case run stops at a symbol that is not a lower-case letter. */
  lemma {:induction false} LowerRunAppend(u: seq<Sym>, v: seq<Sym>)
    requires v == [] || !IsLower(CharOf(v[0]))
    ensures LowerRun(u + v) == LowerRun(u)
    decreases |u|
  {
    if |u| == 0 {
      assert u + v == v;
    } else {
      assert (u + v)[0] == u[0];
      DropAppend(u, v, 1);
      LowerRunAppend(u[1..], v);
    }
  }

  /** Where `(.)([A-Z][a-z]+)` matches at the start, the underscore goes after
      the first character, the greedy run of lower-case letters `xs[2..j]` is
      consumed whole, and the scan resumes at `j`. */
  lemma SplitWordsRun(xs: seq<Sym>, j: nat)
    requires 3 <= j <= |xs| && WordStart(xs[0], xs[1], xs[2])
    requires forall i :: 2 <= i < j ==> IsLower(CharOf(xs[i]))
    requires j == |xs| || !IsLower(CharOf(xs[j]))
    ensures SplitWords(xs) == [xs[0], Ins] + xs[1..j] + SplitWords(xs[j..])
  {
    assert forall i :: 0 <= i < j - 2 ==> xs[2..][i] == xs[i + 2];
    LowerRunExact(xs[2..], j - 2);
    SplitWordsAt(xs, j);
  }

  /** `a` and `b` meet where no match of `(.)([A-Z][a-z]+)` can cross: `b`
      does not continue a lower-case run, and no match starts at the last
      symbol of `a`. */
  predicate WordsSeam(a: seq<Sym>, b: seq<Sym>) {
    |a| == 0 || |b| == 0 || (!IsLower(CharOf(b[0])) && !(|b| >= 2 && WordStart(a[|a| - 1], b[0], b[1])))
  }

  /** Across such a seam the first substitution's scan restarts: it rewrites
      `a` and `b` independently. */
  lemma {:induction false} SplitWordsAppend(a: seq<Sym>, b: seq<Sym>)
    requires WordsSeam(a, b)
    ensures SplitWords(a + b) == SplitWords(a) + SplitWords(b)
    decreases |a|
  {
    if |a| == 0 {
      assert a + b == b;
    } else {
      var k := WordsStep(a);
      SeamSuffix(a, b, k);
      SplitWordsAppend(a[k..], b);
      WordsSeamStep(a, b, k);
    }
  }

  /** Where the first substitution's scan resumes after the symbol at the
      start of `a`: past the lower-case run if a match starts there. */
  function WordsStep(a: seq<Sym>): (k: nat)
    requires |a| >= 1
    ensures 1 <= k <= |a|
  {
    if |a| >= 3 && WordStart(a[0], a[1], a[2]) then 2 + LowerRun(a[2..]) else 1
  }

  lemma WordsSeamStep(a: seq<Sym>, b: seq<Sym>, k: nat)
    requires |a| >= 1 && WordsSeam(a, b) && k == WordsStep(a)
    requires SplitWords(a[k..] + b) == SplitWords(a[k..]) + SplitWords(b)
    ensures SplitWords(a + b) == SplitWords(a) + SplitWords(b)
  {
    if |a| >= 3 && WordStart(a[0], a[1], a[2]) {
      WordsSeamMatch(a, b);
    } else {
      WordsSeamSkip(a, b);
    }
  }

  /** A seam survives dropping a prefix of its left side. */
  lemma SeamSuffix(a: seq<Sym>, b: seq<Sym>, k: nat)
    requires WordsSeam(a, b) && k <= |a|
    ensures WordsSeam(a[k..], b)
  {
    if k < |a| {
      assert a[k..][|a| - k - 1] == a[|a| - 1];
    }
  }

  lemma WordsSeamMatch(a: seq<Sym>, b: seq<Sym>)
    requires |a| >= 3 && WordStart(a[0], a[1], a[2]) && WordsSeam(a, b)
    requires SplitWords(a[2 + LowerRun(a[2..])..] + b)
          == SplitWords(a[2 + LowerRun(a[2..])..]) + SplitWords(b)
    ensures SplitWords(a + b) == SplitWords(a) + SplitWords(b)
  {
    var xs := a + b;
    var j := 2 + LowerRun(a[2..]);
    assert SplitWords(xs) == [a[0], Ins] + a[1..j] + SplitWords(a[j..] + b) by {
      assert xs[0] == a[0] && xs[1] == a[1] && xs[2] == a[2];
      DropAppend(a, b, 2);
      LowerRunAppend(a[2..], b);
      SplitWordsAt(xs, j);
      TakeAppend(a, b, 1, j);
      DropAppend(a, b, j);
    }
    SplitWordsAt(a, j);
    Assoc3([a[0], Ins] + a[1..j], SplitWords(a[j..]), SplitWords(b));
  }

  lemma WordsSeamSkip(a: seq<Sym>, b: seq<Sym>)
    requires |a| >= 1 && !(|a| >= 3 && WordStart(a[0], a[1], a[2])) && WordsSeam(a, b)
    requires SplitWords(a[1..] + b) == SplitWords(a[1..]) + SplitWords(b)
    ensures SplitWords(a + b) == SplitWords(a) + SplitWords(b)
  {
    var xs := a + b;
    assert xs[0] == a[0];
    if |a| >= 3 {
      assert xs[1] == a[1] && xs[2] == a[2];
    } else if |a| == 2 && |b| > 0 {
      assert xs[2] == b[0];
    } else if |a| == 1 && |b| >= 2 {
      assert xs[1] == b[0] && xs[2] == b[1];
    }
    assert !(|xs| >= 3 && WordStart(xs[0], xs[1], xs[2]));
    DropAppend(a, b, 1);
    assert SplitWords(xs) == [a[0]] + SplitWords(a[1..] + b);
    assert SplitWords(a) == [a[0]] + SplitWords(a[1..]);
    Assoc3([a[0]], SplitWords(a[1..]), SplitWords(b));
  }

  /** Across a seam that is not a `[a-z0-9][A-Z]` pair, the second
      substitution's scan restarts: it rewrites `a` and `b` independently. */
  lemma {:induction false} SplitCamelAppend(a: seq<Sym>, b: seq<Sym>)
    requires |a| == 0 || |b| == 0 || !CamelPair(a[|a| - 1], b[0])
    ensures SplitCamel(a + b) == SplitCamel(a) + SplitCamel(b)
    decreases |a|
  {
    if |a| == 0 {
      assert a + b == b;
    } else if |a| >= 2 && CamelPair(a[0], a[1]) {
      SplitCamelAppend(a[2..], b);
      CamelSeamPair(a, b);
    } else {
      SplitCamelAppend(a[1..], b);
      CamelSeamSkip(a, b);
    }
  }

  lemma CamelSeamPair(a: seq<Sym>, b: seq<Sym>)
    requires |a| >= 2 && CamelPair(a[0], a[1])
    requires SplitCamel(a[2..] + b) == SplitCamel(a[2..]) + SplitCamel(b)
    ensures SplitCamel(a + b) == SplitCamel(a) + SplitCamel(b)
  {
    var xs := a + b;
    assert xs[0] == a[0] && xs[1] == a[1];
    assert xs[2..] == a[2..] + b;
    assert SplitCamel(a) == [a[0], Ins, a[1]] + SplitCamel(a[2..]);
    Assoc3([a[0], Ins, a[1]], SplitCamel(a[2..]), SplitCamel(b));
  }

  lemma CamelSeamSkip(a: seq<Sym>, b: seq<Sym>)
    requires |a| >= 1 && !(|a| >= 2 && CamelPair(a[0], a[1]))
    requires |a| == 1 && |b| > 0 ==> !CamelPair(a[0], b[0])
    requires SplitCamel(a[1..] + b) == SplitCamel(a[1..]) + SplitCamel(b)
    ensures SplitCamel(a + b) == SplitCamel(a) + SplitCamel(b)
  {
    var xs := a + b;
    assert xs[0] == a[0];
    if |a| >= 2 {
      assert xs[1] == a[1];
    } else if |b| > 0 {
      assert xs[1] == b[0];
    }
    assert !(|xs| >= 2 && CamelPair(xs[0], xs[1]));
    DropAppend(a, b, 1);
    assert SplitCamel(xs) == [a[0]] + SplitCamel(a[1..] + b);
    assert SplitCamel(a) == [a[0]] + SplitCamel(a[1..]);
    Assoc3([a[0]], SplitCamel(a[1..]), SplitCamel(b));
  }

  /** Where `(.)([A-Z][a-z]+)` matches nowhere, the first substitution
      changes nothing. */
  lemma {:induction false} SplitWordsNoMatch(xs: seq<Sym>)
    requires forall i :: 0 <= i < |xs| - 2 ==> !WordStart(xs[i], xs[i + 1], xs[i + 2])
    ensures SplitWords(xs) == xs
    decreases |xs|
  {
    if |xs| > 0 {
      assert forall i :: 0 <= i < |xs| - 1 ==> xs[1..][i] == xs[i + 1];
      SplitWordsNoMatch(xs[1..]);
    }
  }

  /** Where no adjacent pair is `[a-z0-9][A-Z]`, the second substitution
      changes nothing. */
  lemma {:induction false} SplitCamelNoPair(xs: seq<Sym>)
    requires forall i :: 0 <= i < |xs| - 1 ==> !CamelPair(xs[i], xs[i + 1])
    ensures SplitCamel(xs) == xs
    decreases |xs|
  {
    if |xs| > 0 {
      assert forall i :: 0 <= i < |xs| - 1 ==> xs[1..][i] == xs[i + 1];
      SplitCamelNoPair(xs[1..]);
    }
  }

  lemma MarkAppend(s: string, t: string)
    ensures Mark(s + t) == Mark(s) + Mark(t)
  {
    assert forall i :: 0 <= i < |s + t| ==> Mark(s + t)[i] == (Mark(s) + Mark(t))[i];
  }

  /** Lower-casing and rendering go symbol by symbol. */
  lemma RenderLowerAppend(a: seq<Sym>, b: seq<Sym>)
    ensures Render(LowerAll(a + b)) == Render(LowerAll(a)) + Render(LowerAll(b))
  {
    var l := Render(LowerAll(a + b));
    var r := Render(LowerAll(a)) + Render(LowerAll(b));
    assert forall i :: 0 <= i < |l| ==> l[i] == r[i] by {
      forall i | 0 <= i < |l|
        ensures l[i] == r[i]
      {
        if i < |a| {
          assert (a + b)[i] == a[i];
        } else {
          assert (a + b)[i] == b[i - |a|];
        }
      }
    }
  }

  lemma RenderLowerMark(s: string)
    ensures Render(LowerAll(Mark(s))) == Lower(s)
  {
  }

  /** Where `(.)([A-Z][a-z]+)` does not match at the start, the first
      substitution's scan moves on by one symbol. */
  lemma SplitWordsSkip(xs: seq<Sym>)
    requires |xs| >= 1 && !(|xs| >= 3 && WordStart(xs[0], xs[1], xs[2]))
    ensures SplitWords(xs) == [xs[0]] + SplitWords(xs[1..])
  {
  }

  lemma DropAppend<T>(a: seq<T>, b: seq<T>, k: nat)
    requires k <= |a|
    ensures (a + b)[k..] == a[k..] + b
  {
  }

  lemma TakeAppend<T>(a: seq<T>, b: seq<T>, i: nat, j: nat)
    requires i <= j <= |a|
    ensures (a + b)[i..j] == a[i..j]
  {
  }

  lemma Assoc3<T>(x: seq<T>, y: seq<T>, z: seq<T>)
    ensures (x + y) + z == x + (y + z)
  {
  }
}
