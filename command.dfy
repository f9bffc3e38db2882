/** Building the shell command of one attempt: every occurrence of the
    placeholder token in the template is replaced by the input file's path
    (Rust's `str::replace`), and the result is prefixed with
    `timeout <budget>s `. */
module Command {
  import opened RustTypes

  /** The token in a command template that stands for the input file. */
  const FILE_PLACEHOLDER: string := "@bench_file"

  predicate OccursAt(s: string, pat: string, i: nat) {
    i + |pat| <= |s| && s[i..i + |pat|] == pat
  }

  lemma SliceOfTail(s: string, i: nat, j: nat)
    requires 1 <= i <= j <= |s|
    ensures s[i..j] == s[1..][i - 1..j - 1]
  {
    assert forall k :: 0 <= k < j - i ==> s[i..j][k] == s[1..][i - 1..j - 1][k];
  }

  lemma OccursAtShift(s: string, pat: string)
    requires |s| > 0
    ensures forall i: nat :: 1 <= i ==> (OccursAt(s, pat, i) <==> OccursAt(s[1..], pat, i - 1))
  {
    forall i: nat | 1 <= i
      ensures OccursAt(s, pat, i) <==> OccursAt(s[1..], pat, i - 1)
    {
      if i + |pat| <= |s| {
        SliceOfTail(s, i, i + |pat|);
      }
    }
  }

  /** Rust's `str::replace` with a non-empty pattern: scanning left to
      right, each match is replaced by `rep` and the scan resumes after the
      match, so matches do not overlap and inserted text is never
      rescanned. */
  function Replace(s: string, pat: string, rep: string): (r: string)
    requires pat != []
    ensures |rep| == |pat| ==> |r| == |s|
    ensures |rep| <= |pat| ==> |r| <= |s|
    decreases |s|
  {
    if |s| < |pat| then s
    else if OccursAt(s, pat, 0) then rep + Replace(s[|pat|..], pat, rep)
    else [s[0]] + Replace(s[1..], pat, rep)
  }

  /** A template without a match is returned unchanged. */
  lemma {:induction false} ReplaceWithoutOccurrence(s: string, pat: string, rep: string)
    requires pat != []
    requires forall i: nat :: !OccursAt(s, pat, i)
    ensures Replace(s, pat, rep) == s
    decreases |s|
  {
    if |s| >= |pat| {
      assert !OccursAt(s, pat, 0);
      OccursAtShift(s, pat);
      forall i: nat
        ensures !OccursAt(s[1..], pat, i)
      {
        assert !OccursAt(s, pat, i + 1);
      }
      ReplaceWithoutOccurrence(s[1..], pat, rep);
      assert s == [s[0]] + s[1..];
    }
  }

  /** `i` is the first position of `s` where `pat` occurs, stated one
      character at a time. */
  predicate LeftmostAt(s: string, pat: string, i: nat)
    decreases i
  {
    OccursAt(s, pat, i) && (i == 0 || (!OccursAt(s, pat, 0) && LeftmostAt(s[1..], pat, i - 1)))
  }

  /** `LeftmostAt` holds exactly at a match with no match before it. */
  lemma {:induction false} LeftmostAtIsFirst(s: string, pat: string, i: nat)
    ensures LeftmostAt(s, pat, i) <==> OccursAt(s, pat, i) && forall j: nat :: j < i ==> !OccursAt(s, pat, j)
    decreases i
  {
    if i > 0 && OccursAt(s, pat, i) {
      OccursAtShift(s, pat);
      LeftmostAtIsFirst(s[1..], pat, i - 1);
      if forall j: nat :: j < i ==> !OccursAt(s, pat, j) {
        forall j: nat | j < i - 1
          ensures !OccursAt(s[1..], pat, j)
        {
          assert !OccursAt(s, pat, j + 1);
        }
      }
      if LeftmostAt(s, pat, i) {
        forall j: nat | j < i
          ensures !OccursAt(s, pat, j)
        {
          if j > 0 {
            assert !OccursAt(s[1..], pat, j - 1);
          }
        }
      }
    }
  }

  /** Where the string does not start with the pattern, its first
      character is copied and replacing goes on from the second. */
  lemma ReplaceCons(c: char, t: string, pat: string, rep: string)
    requires pat != [] && !OccursAt([c] + t, pat, 0)
    ensures Replace([c] + t, pat, rep) == [c] + Replace(t, pat, rep)
  {
    var s := [c] + t;
    assert s[1..] == t;
    if |s| < |pat| {
      assert |t| < |pat|;
    }
  }

  /** A match at the start becomes `rep`, and replacing goes on after it. */
  lemma ReplaceAtStart(pat: string, post: string, rep: string)
    requires pat != []
    ensures Replace([] + pat + post, pat, rep) == [] + rep + Replace(post, pat, rep)
  {
    var s := pat + post;
    assert [] + pat + post == s;
    assert s[..|pat|] == pat;
    assert s[|pat|..] == post;
    assert [] + rep + Replace(post, pat, rep) == rep + Replace(post, pat, rep);
  }

  lemma ConsSplit(pre: string, mid: string, rest: string)
    requires pre != []
    ensures pre + mid + rest == [pre[0]] + (pre[1..] + mid + rest)
  {
    assert pre == [pre[0]] + pre[1..];
  }

  /** A leftmost match at i > 0 lies past the first character. */
  lemma LeftmostAtCons(c: char, t: string, pat: string, i: nat)
    requires 0 < i && LeftmostAt([c] + t, pat, i)
    ensures !OccursAt([c] + t, pat, 0) && LeftmostAt(t, pat, i - 1)
  {
    assert ([c] + t)[1..] == t;
  }

  /** Replacement works from the leftmost match: what precedes it is kept,
      the match becomes `rep`, and replacing resumes on what follows the
      match in the original, so `rep` itself is never scanned. */
  lemma {:induction false} ReplaceAtLeftmost(pre: string, pat: string, post: string, rep: string)
    requires pat != []
    requires LeftmostAt(pre + pat + post, pat, |pre|)
    ensures Replace(pre + pat + post, pat, rep) == pre + rep + Replace(post, pat, rep)
    decreases |pre|
  {
    if pre == [] {
      ReplaceAtStart(pat, post, rep);
    } else {
      var t := pre[1..] + pat + post;
      ConsSplit(pre, pat, post);
      LeftmostAtCons(pre[0], t, pat, |pre|);
      ReplaceAtLeftmost(pre[1..], pat, post, rep);
      ReplaceCons(pre[0], t, pat, rep);
      ConsSplit(pre, rep, Replace(post, pat, rep));
    }
  }

  /** Replacing the pattern by itself changes nothing. */
  lemma {:induction false} ReplaceByItself(s: string, pat: string)
    requires pat != []
    ensures Replace(s, pat, pat) == s
    decreases |s|
  {
    if |s| < |pat| {
    } else if OccursAt(s, pat, 0) {
      ReplaceByItself(s[|pat|..], pat);
      assert s[..|pat|] == pat;
      assert s == s[..|pat|] + s[|pat|..];
    } else {
      ReplaceByItself(s[1..], pat);
      assert s == [s[0]] + s[1..];
    }
  }

  /** The pieces of `s` between the matches of `pat`, found left to right
      without overlap (Rust's `str::split`). */
  function Split(s: string, pat: string): (parts: seq<string>)
    requires pat != []
    ensures |parts| >= 1
    ensures parts[0] <= s
    decreases |s|
  {
    if |s| < |pat| then [s]
    else if OccursAt(s, pat, 0) then [[]] + Split(s[|pat|..], pat)
    else
      var rest := Split(s[1..], pat);
      [[s[0]] + rest[0]] + rest[1..]
  }

  /** The pieces concatenated with `sep` between consecutive ones. */
  function Join(parts: seq<string>, sep: string): string
    decreases |parts|
  {
    if parts == [] then []
    else if |parts| == 1 then parts[0]
    else parts[0] + sep + Join(parts[1..], sep)
  }

  lemma JoinConsFirst(c: char, parts: seq<string>, sep: string)
    requires |parts| >= 1
    ensures Join([[c] + parts[0]] + parts[1..], sep) == [c] + Join(parts, sep)
  {
    var q := [[c] + parts[0]] + parts[1..];
    assert q[1..] == parts[1..];
  }

  lemma JoinAfterMatch(s: string, pat: string)
    requires pat != [] && OccursAt(s, pat, 0)
    requires Join(Split(s[|pat|..], pat), pat) == s[|pat|..]
    ensures Join(Split(s, pat), pat) == s
  {
    var rest := Split(s[|pat|..], pat);
    var parts := [[]] + rest;
    assert Split(s, pat) == parts;
    assert parts[1..] == rest;
    assert Join(parts, pat) == parts[0] + pat + Join(rest, pat);
    assert parts[0] + pat == pat;
    assert s == pat + s[|pat|..];
  }

  lemma JoinAfterChar(s: string, pat: string)
    requires pat != [] && |pat| <= |s| && !OccursAt(s, pat, 0)
    requires Join(Split(s[1..], pat), pat) == s[1..]
    ensures Join(Split(s, pat), pat) == s
  {
    JoinConsFirst(s[0], Split(s[1..], pat), pat);
    assert s == [s[0]] + s[1..];
  }

  /** Joining the pieces with the pattern gives back the original string. */
  lemma {:induction false} SplitJoin(s: string, pat: string)
    requires pat != []
    ensures Join(Split(s, pat), pat) == s
    decreases |s|
  {
    if |s| < |pat| {
    } else if OccursAt(s, pat, 0) {
      SplitJoin(s[|pat|..], pat);
      JoinAfterMatch(s, pat);
    } else {
      SplitJoin(s[1..], pat);
      JoinAfterChar(s, pat);
    }
  }

  /** No piece contains the pattern: every match was found and cut out. */
  lemma {:induction false} SplitPiecesAreFree(s: string, pat: string)
    requires pat != []
    ensures forall k: nat, i: nat :: k < |Split(s, pat)| ==> !OccursAt(Split(s, pat)[k], pat, i)
    decreases |s|
  {
    var parts := Split(s, pat);
    if |s| < |pat| {
    } else if OccursAt(s, pat, 0) {
      SplitPiecesAreFree(s[|pat|..], pat);
      assert parts[1..] == Split(s[|pat|..], pat);
      forall k: nat, i: nat | k < |parts|
        ensures !OccursAt(parts[k], pat, i)
      {
        if k > 0 {
          assert parts[k] == Split(s[|pat|..], pat)[k - 1];
        }
      }
    } else {
      var rest := Split(s[1..], pat);
      SplitPiecesAreFree(s[1..], pat);
      var first := [s[0]] + rest[0];
      OccursAtShift(first, pat);
      forall i: nat
        ensures !OccursAt(first, pat, i)
      {
        if i == 0 && |pat| <= |first| {
          assert forall m :: 0 <= m < |first| ==> first[m] == s[m];
        }
      }
      forall k: nat, i: nat | k < |parts|
        ensures !OccursAt(parts[k], pat, i)
      {
        if k > 0 {
          assert parts[k] == rest[k];
        }
      }
    }
  }

  /** Replacing is splitting at the matches and joining with the
      replacement. */
  lemma {:induction false} ReplaceIsJoinOfSplit(s: string, pat: string, rep: string)
    requires pat != []
    ensures Replace(s, pat, rep) == Join(Split(s, pat), rep)
    decreases |s|
  {
    if |s| < |pat| {
    } else if OccursAt(s, pat, 0) {
      ReplaceIsJoinOfSplit(s[|pat|..], pat, rep);
      var parts := [[]] + Split(s[|pat|..], pat);
      assert parts[1..] == Split(s[|pat|..], pat);
    } else {
      ReplaceIsJoinOfSplit(s[1..], pat, rep);
      JoinConsFirst(s[0], Split(s[1..], pat), rep);
    }
  }

  /** The template with every placeholder replaced by the file's path:
      the pieces around the matches, joined by the path. */
  function Interpolate(template: string, file: string): (r: string)
    ensures r == Join(Split(template, FILE_PLACEHOLDER), file)
  {
    ReplaceIsJoinOfSplit(template, FILE_PLACEHOLDER, file);
    Replace(template, FILE_PLACEHOLDER, file)
  }

  predicate IsDigit(c: char) {
    '0' <= c <= '9'
  }

  predicate AllDigits(s: string) {
    forall k :: 0 <= k < |s| ==> IsDigit(s[k])
  }

  function DigitChar(d: nat): (c: char)
    requires d < 10
    ensures IsDigit(c)
  {
    ('0' as int + d) as char
  }

  function DigitValue(c: char): (d: nat)
    requires IsDigit(c)
    ensures d < 10 && DigitChar(d) == c
  {
    c as int - '0' as int
  }

  /** The decimal text `format!` produces for an unsigned integer: digits,
      most significant first, with no leading zero. */
  function Decimal(n: nat): (r: string)
    ensures |r| >= 1 && AllDigits(r)
    ensures r[0] == '0' <==> n == 0
    decreases n
  {
    if n < 10 then [DigitChar(n)] else Decimal(n / 10) + [DigitChar(n % 10)]
  }

  /** The value of a string of decimal digits. */
  function ParseDecimal(s: string): nat
    requires AllDigits(s)
    decreases |s|
  {
    if s == [] then 0 else 10 * ParseDecimal(s[..|s| - 1]) + DigitValue(s[|s| - 1])
  }

  lemma {:induction false} DecimalRoundTrip(n: nat)
    ensures ParseDecimal(Decimal(n)) == n
    decreases n
  {
    if n >= 10 {
      DecimalRoundTrip(n / 10);
      var d := Decimal(n / 10);
      assert (d + [DigitChar(n % 10)])[..|d|] == d;
    }
  }

  /** The command run for one attempt:
      `timeout <budget>s <template with the file interpolated>`. */
  function BuildCommand(timeout: U64, file: string, template: string): (r: string)
    ensures ParseTimeoutCommand(r) == Some((timeout as nat, Interpolate(template, file)))
  {
    var body := Interpolate(template, file);
    CommandRoundTrip(timeout, body);
    "timeout " + Decimal(timeout) + "s " + body
  }

  /** Length of the run of digits at the start of `s`. */
  function DigitRun(s: string): (n: nat)
    ensures n <= |s| && AllDigits(s[..n])
    ensures n < |s| ==> !IsDigit(s[n])
    decreases |s|
  {
    if s == [] || !IsDigit(s[0]) then 0
    else
      var n := 1 + DigitRun(s[1..]);
      assert s[..n] == [s[0]] + s[1..][..n - 1];
      n
  }

  lemma {:induction false} DigitRunOfDigits(d: string, rest: string)
    requires AllDigits(d)
    requires rest != [] && !IsDigit(rest[0])
    ensures DigitRun(d + rest) == |d|
    decreases |d|
  {
    if d != [] {
      DigitRunOfDigits(d[1..], rest);
      assert (d + rest)[1..] == d[1..] + rest;
    } else {
      assert d + rest == rest;
    }
  }

  /** Reads `timeout <digits>s <command>` back into the budget and the
      wrapped command; `None` for any other shape. */
  function ParseTimeoutCommand(cmd: string): Option<(nat, string)> {
    if |cmd| < 8 || cmd[..8] != "timeout " then None
    else
      var tail := cmd[8..];
      var n := DigitRun(tail);
      if n == 0 || |tail| < n + 2 || tail[n..n + 2] != "s " then None
      else Some((ParseDecimal(tail[..n]), tail[n + 2..]))
  }

  /** A `timeout <budget>s ` prefix reads back as the budget, and what
      follows it as the wrapped command, whatever that command is. */
  lemma CommandRoundTrip(timeout: nat, body: string)
    ensures ParseTimeoutCommand("timeout " + Decimal(timeout) + "s " + body) == Some((timeout, body))
  {
    var d := Decimal(timeout);
    var cmd := "timeout " + d + "s " + body;
    var tail := d + "s " + body;
    assert cmd == "timeout " + tail;
    assert cmd[8..] == tail;
    DigitRunOfDigits(d, "s " + body);
    assert d + ("s " + body) == tail;
    assert tail[..|d|] == d;
    assert tail[|d|..|d| + 2] == "s ";
    assert tail[|d| + 2..] == body;
    DecimalRoundTrip(timeout);
  }

  lemma ExampleInterpolate()
    ensures Interpolate("cat @bench_file", "in.txt") == "cat in.txt"
  {
    var t := "cat @bench_file";
    assert t == "cat " + FILE_PLACEHOLDER + [];
    assert OccursAt(t, FILE_PLACEHOLDER, 4);
    forall j: nat | j < 4
      ensures !OccursAt(t, FILE_PLACEHOLDER, j)
    {
      assert t[j] != FILE_PLACEHOLDER[0];
    }
    LeftmostAtIsFirst(t, FILE_PLACEHOLDER, 4);
    ReplaceAtLeftmost("cat ", FILE_PLACEHOLDER, [], "in.txt");
    ExampleText();
  }

  lemma ExampleText()
    ensures "cat " + "in.txt" + [] == "cat in.txt"
  {
    var r := "cat " + "in.txt" + [];
    assert forall k :: 0 <= k < |r| ==> r[k] == "cat in.txt"[k];
  }

  /** The full command for budget 5. */
  lemma ExampleBuildCommand()
    ensures BuildCommand(5, "in.txt", "cat @bench_file") == "timeout 5s cat in.txt"
  {
    ExampleInterpolate();
    assert Decimal(5) == "5";
    ExampleCommandText();
  }

  lemma ExampleCommandText()
    ensures "timeout " + "5" + "s " + "cat in.txt" == "timeout 5s cat in.txt"
  {
    var r := "timeout " + "5" + "s " + "cat in.txt";
    assert forall k :: 0 <= k < |r| ==> r[k] == "timeout 5s cat in.txt"[k];
  }
}
