/** `generate_name` of datasets/datasets.py: a dataset name derived from the
    uploaded file's name, made ASCII with dashes for spaces, and suffixed with
    `-2`, `-3`, ... before the extension until the store does not hold it. */
module Naming {
  import opened Text

  /** Drops every non-ASCII character, as `.encode('ASCII', 'ignore')`. */
  function DropNonAscii(s: string): (r: string)
    ensures IsAscii(r)
    ensures |r| <= |s|
    ensures IsAscii(s) ==> r == s
    ensures forall c :: IsAsciiChar(c) ==> multiset(r)[c] == multiset(s)[c]
    decreases |s|
  {
    if |s| == 0 then []
    else
      assert s == [s[0]] + s[1..];
      if IsAsciiChar(s[0]) then [s[0]] + DropNonAscii(s[1..])
      else DropNonAscii(s[1..])
  }

  /** Dropping works character by character and keeps the order: the ASCII
      characters of `a + b` are those of `a` followed by those of `b`. */
  lemma {:induction false} DropNonAsciiAppend(a: string, b: string)
    ensures DropNonAscii(a + b) == DropNonAscii(a) + DropNonAscii(b)
    decreases |a|
  {
    if |a| > 0 {
      assert (a + b)[1..] == a[1..] + b;
      DropNonAsciiAppend(a[1..], b);
    } else {
      assert a + b == b;
    }
  }

  /** Replaces every space by a dash, as `.replace(b' ', b'-')`. */
  function DashSpaces(s: string): (r: string)
    ensures |r| == |s|
    ensures forall i :: 0 <= i < |s| ==> r[i] == (if s[i] == ' ' then '-' else s[i])
    decreases |s|
  {
    if |s| == 0 then [] else [if s[0] == ' ' then '-' else s[0]] + DashSpaces(s[1..])
  }

  /** The normalised filename. Unicode NFKD decomposition is supplied by the
      caller as `nfkd`. */
  function Normalise(nfkd: string -> string, filename: string): (name: string)
    ensures IsAscii(name)
    ensures ' ' !in name
  {
    DashSpaces(DropNonAscii(nfkd(filename)))
  }

  /** An ASCII filename without spaces that NFKD leaves alone is its own
      normalised name. */
  lemma NormaliseIdentity(nfkd: string -> string, filename: string)
    requires nfkd(filename) == filename
    requires IsAscii(filename) && ' ' !in filename
    ensures Normalise(nfkd, filename) == filename
  {
    var r := Normalise(nfkd, filename);
    assert forall i :: 0 <= i < |r| ==> r[i] == filename[i];
  }

  /** Whether `s` consists of dots only. */
  predicate AllDots(s: string) {
    forall i :: 0 <= i < |s| ==> s[i] == '.'
  }

  /** An extension is empty, or one leading dot followed by neither a dot nor a slash. */
  predicate IsExtension(ext: string) {
    ext == [] || (ext[0] == '.' && forall j :: 0 < j < |ext| ==> ext[j] != '.' && ext[j] != '/')
  }

  /** `os.path.splitext` (POSIX): the extension starts at the last dot of the
      last path component, unless everything before that dot in the component
      is dots. */
  function Splitext(p: string): (parts: (string, string))
    ensures parts.0 + parts.1 == p
    ensures IsExtension(parts.1)
    ensures parts.1 != [] ==>
              && |parts.0| == LastIndexOf(p, '.')
              && LastIndexOf(p, '/') < |parts.0|
              && !AllDots(p[LastIndexOf(p, '/') + 1 .. |parts.0|])
    ensures parts.1 == [] ==>
              forall i, j :: LastIndexOf(p, '/') < i < j < |p| && p[j] == '.' ==> p[i] == '.'
  {
    var sep := LastIndexOf(p, '/');
    var dot := LastIndexOf(p, '.');
    if sep < dot && !AllDots(p[sep + 1 .. dot]) then
      ExtensionShape(p, sep, dot);
      (p[..dot], p[dot..])
    else
      NoExtension(p, sep, dot);
      (p, [])
  }

  /** When the last dot of the last component has only dots before it (or
      there is no such dot), only dots precede any dot of that component. */
  lemma NoExtension(p: string, sep: int, dot: int)
    requires -1 <= sep < |p| && -1 <= dot < |p|
    requires forall j :: dot < j < |p| ==> p[j] != '.'
    requires sep < dot ==> AllDots(p[sep + 1 .. dot])
    ensures forall i, j :: sep < i < j < |p| && p[j] == '.' ==> p[i] == '.'
  {
    forall i, j | sep < i < j < |p| && p[j] == '.'
      ensures p[i] == '.'
    {
      assert j <= dot;
      assert p[sep + 1 .. dot][i - sep - 1] == p[i];
    }
  }

  /** The usual case: a file name with one extension. */
  lemma SplitextIris()
    ensures Splitext("iris.data") == ("iris", ".data")
  {
    var p := "iris.data";
    LastIndexOfAt(p, '/', -1);
    LastIndexOfAt(p, '.', 4);
    assert p[0 .. 4][0] == 'i';
    assert p[..4] == "iris" && p[4..] == ".data";
  }

  /** A leading dot alone does not start an extension. */
  lemma SplitextHidden()
    ensures Splitext(".bashrc") == (".bashrc", "")
  {
    var p := ".bashrc";
    assert p[0] == '.' && forall j :: 0 < j < |p| ==> p[j] != '.';
    assert forall j :: 0 <= j < |p| ==> p[j] != '/';
    assert LastIndexOf(p, '/') == -1;
    assert LastIndexOf(p, '.') == 0;
  }

  /** Cutting at the last dot, past the last slash, gives back the path and an
      extension with one leading dot and no further dot or slash. */
  lemma ExtensionShape(p: string, sep: int, dot: int)
    requires -1 <= sep < dot < |p|
    requires p[dot] == '.'
    requires forall j :: dot < j < |p| ==> p[j] != '.'
    requires forall j :: sep < j < |p| ==> p[j] != '/'
    ensures p[..dot] + p[dot..] == p
    ensures IsExtension(p[dot..])
  {
    var ext := p[dot..];
    assert forall j :: 0 <= j < |ext| ==> ext[j] == p[dot + j];
  }

  /** The name tried at a given attempt: the normalised name itself, and from
      the second attempt on, `stem-<attempt>` followed by the extension. */
  function Candidate(nfkd: string -> string, filename: string, attempt: int): (c: string)
    ensures IsAscii(c)
    ensures ' ' !in c
  {
    var name := Normalise(nfkd, filename);
    if attempt > 1 then
      var (stem, ext) := Splitext(name);
      SafeSuffixed(stem, ext, Decimal(attempt));
      stem + "-" + Decimal(attempt) + ext
    else name
  }

  /** ASCII text without spaces stays so when a dash and digits are put
      between its stem and its extension. */
  lemma SafeSuffixed(stem: string, ext: string, digits: string)
    requires IsAscii(stem + ext) && ' ' !in stem + ext
    requires forall i :: 0 <= i < |digits| ==> IsDigit(digits[i])
    ensures IsAscii(stem + "-" + digits + ext) && ' ' !in stem + "-" + digits + ext
  {
    var whole := stem + ext;
    var r := stem + "-" + digits + ext;
    forall i | 0 <= i < |r|
      ensures IsAsciiChar(r[i]) && r[i] != ' '
    {
      if i < |stem| {
        assert r[i] == whole[i];
      } else if i == |stem| {
      } else if i < |stem| + 1 + |digits| {
        assert r[i] == digits[i - |stem| - 1];
      } else {
        assert r[i] == whole[i - 1 - |digits|];
      }
    }
  }

  /** Distinct attempts (from the first on) try distinct names. */
  lemma CandidateInjective(nfkd: string -> string, filename: string, a: int, b: int)
    requires 1 <= a && 1 <= b
    requires Candidate(nfkd, filename, a) == Candidate(nfkd, filename, b)
    ensures a == b
  {
    if a > 1 && b > 1 {
      var (stem, ext) := Splitext(Normalise(nfkd, filename));
      SuffixInjective(stem, ext, Decimal(a), Decimal(b));
      DecimalInjective(a, b);
    }
  }

  /** The same stem and extension around two suffixes give the same name only
      for the same suffix. */
  lemma SuffixInjective(stem: string, ext: string, da: string, db: string)
    requires stem + "-" + da + ext == stem + "-" + db + ext
    ensures da == db
  {
    var ca := stem + "-" + da + ext;
    assert |da| == |db|;
    assert ca[|stem| + 1 .. |stem| + 1 + |da|] == da;
    assert (stem + "-" + db + ext)[|stem| + 1 .. |stem| + 1 + |db|] == db;
  }

  /** The names of `used` that some attempt from `attempt` on (and from the
      first) would still try: the probe's termination measure. */
  ghost function Pending(nfkd: string -> string, used: set<string>, filename: string, attempt: int): set<string> {
    set n | n in used && exists k :: k >= attempt && k >= 1 && n == Candidate(nfkd, filename, k)
  }

  /** `k` is the first attempt from `attempt` on whose name is free. */
  ghost predicate FirstFree(nfkd: string -> string, used: set<string>, filename: string, attempt: int, k: int) {
    && attempt <= k
    && Candidate(nfkd, filename, k) !in used
    && (forall j :: attempt <= j < k ==> Candidate(nfkd, filename, j) in used)
  }

  /** `r` is the candidate of the first free attempt `k` from `attempt` on,
      and (from the first attempt on) the attempts probed past it are no more
      than the pending stored names. */
  ghost predicate ProbeResult(nfkd: string -> string, used: set<string>, filename: string, attempt: int, r: string) {
    exists k :: FirstFree(nfkd, used, filename, attempt, k) && r == Candidate(nfkd, filename, k)
                && (1 <= attempt ==> k - attempt <= |Pending(nfkd, used, filename, attempt)|)
  }

  /** `generate_name(filename, attempt)` against a store holding the names `used`. */
  function GenerateName(nfkd: string -> string, used: set<string>, filename: string, attempt: int): (r: string)
    ensures r !in used
    ensures IsAscii(r) && ' ' !in r
    ensures attempt <= 1 && Normalise(nfkd, filename) !in used ==> r == Normalise(nfkd, filename)
    ensures ProbeResult(nfkd, used, filename, attempt, r)
    decreases |Pending(nfkd, used, filename, attempt)|, if attempt < 1 then 1 - attempt else 0
  {
    var name := Candidate(nfkd, filename, attempt);
    if name !in used then
      assert FirstFree(nfkd, used, filename, attempt, attempt);
      name
    else
      PendingShrinks(nfkd, used, filename, attempt);
      var r := GenerateName(nfkd, used, filename, attempt + 1);
      ProbeStep(nfkd, used, filename, attempt, r);
      r
  }

  /** A taken candidate at `attempt` carries the next attempt's result back. */
  lemma ProbeStep(nfkd: string -> string, used: set<string>, filename: string, attempt: int, r: string)
    requires Candidate(nfkd, filename, attempt) in used
    requires attempt < 1 ==> Pending(nfkd, used, filename, attempt + 1) == Pending(nfkd, used, filename, attempt)
    requires 1 <= attempt ==> |Pending(nfkd, used, filename, attempt + 1)| < |Pending(nfkd, used, filename, attempt)|
    requires ProbeResult(nfkd, used, filename, attempt + 1, r)
    ensures ProbeResult(nfkd, used, filename, attempt, r)
  {
    var next := |Pending(nfkd, used, filename, attempt + 1)|;
    var now := |Pending(nfkd, used, filename, attempt)|;
    var k :| FirstFree(nfkd, used, filename, attempt + 1, k) && r == Candidate(nfkd, filename, k)
             && (1 <= attempt + 1 ==> k - (attempt + 1) <= next);
    forall j | attempt <= j < k
      ensures Candidate(nfkd, filename, j) in used
    {
      if j != attempt {
        assert attempt + 1 <= j < k;
      }
    }
    assert FirstFree(nfkd, used, filename, attempt, k);
    assert 1 <= attempt ==> k - attempt <= now;
  }

  /** A taken name at attempt `attempt` leaves one pending name fewer for the
      next attempt (and none more before the first attempt). */
  lemma PendingShrinks(nfkd: string -> string, used: set<string>, filename: string, attempt: int)
    requires Candidate(nfkd, filename, attempt) in used
    ensures attempt < 1 ==> Pending(nfkd, used, filename, attempt + 1) == Pending(nfkd, used, filename, attempt)
    ensures 1 <= attempt ==> |Pending(nfkd, used, filename, attempt + 1)| < |Pending(nfkd, used, filename, attempt)|
  {
    var now := Pending(nfkd, used, filename, attempt);
    var next := Pending(nfkd, used, filename, attempt + 1);
    if 1 <= attempt {
      var c := Candidate(nfkd, filename, attempt);
      assert c in now;
      forall n | n in next
        ensures n in now - {c}
      {
        var k :| k >= attempt + 1 && k >= 1 && n == Candidate(nfkd, filename, k);
        if n == c {
          CandidateInjective(nfkd, filename, attempt, k);
        }
      }
      SubsetSize(next, now - {c});
    }
  }

  lemma SubsetSize<T>(a: set<T>, b: set<T>)
    requires a <= b
    ensures |a| <= |b|
    decreases b
  {
    if a != {} {
      var x :| x in a;
      SubsetSize(a - {x}, b - {x});
    }
  }

  /** Starting from the first attempt, the name returned is the first free
      candidate, and at most one probe per stored name plus one happens. */
  lemma GenerateNameProbes(nfkd: string -> string, used: set<string>, filename: string)
    ensures exists k :: FirstFree(nfkd, used, filename, 1, k)
                        && GenerateName(nfkd, used, filename, 1) == Candidate(nfkd, filename, k)
                        && k <= |used| + 1
  {
    var r := GenerateName(nfkd, used, filename, 1);
    assert ProbeResult(nfkd, used, filename, 1, r);
    var k :| FirstFree(nfkd, used, filename, 1, k) && r == Candidate(nfkd, filename, k)
             && k - 1 <= |Pending(nfkd, used, filename, 1)|;
    SubsetSize(Pending(nfkd, used, filename, 1), used);
  }
}
