/** The Go `strings` functions the driver and the mounter service share.
    A string is a sequence of Unicode scalar values. */
module GoStrings {

  /** unicode.IsSpace */
  predicate IsSpace(c: char) {
    var n := c as int;
    || 9 <= n <= 13 || n == 0x20 || n == 0x85 || n == 0xA0 || n == 0x1680
    || 0x2000 <= n <= 0x200A || n == 0x2028 || n == 0x2029 || n == 0x202F || n == 0x205F || n == 0x3000
  }

  predicate Trimmed(s: string) {
    s != "" ==> !IsSpace(s[0]) && !IsSpace(s[|s| - 1])
  }

  function TrimLeft(s: string): (t: string)
    ensures t != "" ==> !IsSpace(t[0])
    ensures t != "" && s != "" && !IsSpace(s[|s| - 1]) ==> !IsSpace(t[|t| - 1])
    ensures s != "" && !IsSpace(s[0]) ==> t == s
  {
    if s != "" && IsSpace(s[0]) then TrimLeft(s[1..]) else s
  }

  function TrimRight(s: string): (t: string)
    ensures t != "" ==> !IsSpace(t[|t| - 1])
    ensures t != "" ==> s != "" && t[0] == s[0]
    ensures s != "" && !IsSpace(s[|s| - 1]) ==> t == s
  {
    if s != "" && IsSpace(s[|s| - 1]) then TrimRight(s[..|s| - 1]) else s
  }

  /** strings.TrimSpace */
  function TrimSpace(s: string): (t: string)
    ensures Trimmed(t)
    ensures Trimmed(s) ==> t == s
  {
    TrimRight(TrimLeft(s))
  }

  lemma {:induction false} TrimLeftKeeps(s: string, c: char)
    ensures c in TrimLeft(s) ==> c in s
    ensures c in s && !IsSpace(c) ==> c in TrimLeft(s)
  {
    if s != "" && IsSpace(s[0]) {
      TrimLeftKeeps(s[1..], c);
      assert s == [s[0]] + s[1..];
    }
  }

  lemma {:induction false} TrimRightKeeps(s: string, c: char)
    ensures c in TrimRight(s) ==> c in s
    ensures c in s && !IsSpace(c) ==> c in TrimRight(s)
  {
    if s != "" && IsSpace(s[|s| - 1]) {
      TrimRightKeeps(s[..|s| - 1], c);
      assert s == s[..|s| - 1] + [s[|s| - 1]];
    }
  }

  /** Trimming removes spaces only and adds nothing. */
  lemma TrimKeeps(s: string, c: char)
    ensures c in TrimSpace(s) ==> c in s
    ensures c in s && !IsSpace(c) ==> c in TrimSpace(s)
  {
    TrimLeftKeeps(s, c);
    TrimRightKeeps(TrimLeft(s), c);
  }

  /** Lower case. The driver only compares results with "true", "false" and "default"; no scalar
      outside A-Z lowers or folds to a letter of those words, so ASCII is exact. */
  function LowerChar(c: char): char {
    if 'A' <= c <= 'Z' then c + 32 as char else c
  }

  function ToLower(s: string): string {
    seq(|s|, i requires 0 <= i < |s| => LowerChar(s[i]))
  }

  /** Lowering identifies exactly the two cases of the same letter. */
  lemma LowersPairs(c: char, d: char)
    ensures LowerChar(c) == LowerChar(d) <==>
            c == d || ('A' <= c <= 'Z' && d as int == c as int + 32) || ('A' <= d <= 'Z' && c as int == d as int + 32)
  {
  }

  /** So a word is read in every mixture of cases, and surrounded by any spaces. */
  lemma ReadsAnyCase(before: string, v: string, after: string, w: string)
    requires AllSpace(before) && AllSpace(after) && Trimmed(v) && v != ""
    ensures Reads(before + v + after, w) <==> |v| == |w| && forall i | 0 <= i < |v| :: LowerChar(v[i]) == w[i]
  {
    TrimPadded(before, v, after);
    assert ToLower(v) == w <==> |v| == |w| && forall i | 0 <= i < |v| :: ToLower(v)[i] == w[i];
  }

  /** In ASCII these are the space and the five control characters from tab to carriage return. */
  lemma AsciiSpaces(c: char)
    requires c as int < 128
    ensures IsSpace(c) <==> c == ' ' || c == '\t' || c == '\n' || c == '\r' || c as int == 0x0B || c as int == 0x0C
  {
  }

  /** A line that ends as DOS lines do is the line. */
  lemma CarriageReturnIsTrimmed(s: string)
    requires Trimmed(s)
    ensures TrimSpace(s + ['\r']) == s
  {
    AsciiSpaces('\r');
    TrimPadded("", s, ['\r']);
    assert "" + s + ['\r'] == s + ['\r'];
  }

  predicate AllSpace(s: string) {
    forall c | c in s :: IsSpace(c)
  }

  lemma {:induction false} TrimLeftPadded(before: string, s: string)
    requires AllSpace(before) && (s != "" ==> !IsSpace(s[0]))
    ensures TrimLeft(before + s) == s
  {
    if before == "" {
      assert before + s == s;
    } else {
      TrimLeftPadded(before[1..], s);
      assert (before + s)[1..] == before[1..] + s;
    }
  }

  lemma {:induction false} TrimRightPadded(s: string, after: string)
    requires AllSpace(after) && (s != "" ==> !IsSpace(s[|s| - 1]))
    ensures TrimRight(s + after) == s
  {
    if after == "" {
      assert s + after == s;
    } else {
      TrimRightPadded(s, after[..|after| - 1]);
      assert (s + after)[..|s + after| - 1] == s + after[..|after| - 1];
    }
  }

  /** Trimming takes off exactly the spaces at both ends. */
  lemma TrimPadded(before: string, s: string, after: string)
    requires AllSpace(before) && AllSpace(after) && Trimmed(s)
    ensures TrimSpace(before + s + after) == s
  {
    if s == "" {
      TrimLeftPadded(before + after, "");
      assert before + s + after == before + after + "";
    } else {
      TrimLeftPadded(before, s + after);
      assert before + s + after == before + (s + after);
      TrimRightPadded(s, after);
    }
  }

  /** strings.ToLower(strings.TrimSpace(v)) == w */
  predicate Reads(v: string, w: string) {
    ToLower(TrimSpace(v)) == w
  }

  /** A character that survives lowering and is no space occurs in v only if it occurs in w. */
  lemma ReadsExcludes(v: string, w: string, c: char)
    requires Reads(v, w) && c !in w && !IsSpace(c) && LowerChar(c) == c
    ensures c !in v
  {
    TrimKeeps(v, c);
    var t := TrimSpace(v);
    forall i | 0 <= i < |t| ensures t[i] != c {
      assert ToLower(t)[i] == LowerChar(t[i]) && ToLower(t)[i] in w;
    }
  }

  /** The position of the first c, or |s|. */
  function IndexOf(s: string, c: char): (i: nat)
    ensures i <= |s| && c !in s[..i]
    ensures i < |s| <==> c in s
    ensures i < |s| ==> s[i] == c
  {
    if s == "" then 0
    else if s[0] == c then 0
    else
      var j := IndexOf(s[1..], c);
      assert s[..j + 1] == [s[0]] + s[1..][..j];
      j + 1
  }

  lemma IndexOfPrefix(k: string, c: char, v: string)
    requires c !in k
    ensures IndexOf(k + [c] + v, c) == |k|
  {
    var s := k + [c] + v;
    assert s[|k|] == c && s[..|k|] == k;
    assert forall i | |k| < i <= |s| :: s[..i][|k|] == c;
  }

  /** strings.Split with a one-character separator. */
  function Split(s: string, sep: char): (parts: seq<string>)
    ensures |parts| >= 1
    ensures forall p | p in parts :: sep !in p
    decreases |s|
  {
    var i := IndexOf(s, sep);
    if i == |s| then
      assert s[..i] == s;
      [s]
    else [s[..i]] + Split(s[i + 1..], sep)
  }

  lemma SplitFirst(s: string, sep: char)
    ensures Split(s, sep)[0] == s[..IndexOf(s, sep)]
    ensures |Split(s, sep)| == 1 <==> IndexOf(s, sep) == |s|
  {
    assert s[..|s|] == s;
  }

  /** The second part lies between the first two separators. */
  lemma SplitSecond(s: string, sep: char)
    requires sep in s
    ensures |Split(s, sep)| >= 2
    ensures var rest := s[IndexOf(s, sep) + 1..];
            Split(s, sep)[1] == rest[..IndexOf(rest, sep)]
  {
    var rest := s[IndexOf(s, sep) + 1..];
    SplitFirst(rest, sep);
    assert Split(s, sep) == [s[..IndexOf(s, sep)]] + Split(rest, sep);
  }

  /** strings.SplitN(s, sep, 2) */
  function SplitN2(s: string, sep: char): (parts: seq<string>)
    ensures 1 <= |parts| <= 2
    ensures sep !in parts[0]
  {
    var i := IndexOf(s, sep);
    if i == |s| then
      assert s[..i] == s;
      [s]
    else [s[..i], s[i + 1..]]
  }

  /** strings.Join with a one-character separator. */
  function Join(xs: seq<string>, sep: char): string {
    if |xs| == 0 then ""
    else if |xs| == 1 then xs[0]
    else xs[0] + [sep] + Join(xs[1..], sep)
  }

  lemma JoinNonEmpty(xs: seq<string>, sep: char, i: nat)
    requires i < |xs| && xs[i] != ""
    ensures Join(xs, sep) != ""
  {
  }

  lemma SplitOne(x: string, sep: char)
    requires sep !in x
    ensures Split(x, sep) == [x]
  {
    assert IndexOf(x, sep) == |x|;
  }

  lemma SplitPrepend(x: string, sep: char, rest: string)
    requires sep !in x
    ensures Split(x + [sep] + rest, sep) == [x] + Split(rest, sep)
  {
    IndexOfPrefix(x, sep, rest);
    var s := x + [sep] + rest;
    assert s[..|x|] == x && s[|x| + 1..] == rest;
  }

  /** Splitting a joined list gives the list back when no element holds the separator. */
  lemma {:induction false} SplitJoin(xs: seq<string>, sep: char)
    requires |xs| >= 1
    requires forall i | 0 <= i < |xs| :: sep !in xs[i]
    ensures Split(Join(xs, sep), sep) == xs
  {
    if |xs| == 1 {
      SplitOne(xs[0], sep);
    } else {
      SplitJoin(xs[1..], sep);
      SplitPrepend(xs[0], sep, Join(xs[1..], sep));
    }
  }

  lemma JoinPrepend(x: string, sep: char, parts: seq<string>)
    requires |parts| >= 1
    ensures Join([x] + parts, sep) == x + [sep] + Join(parts, sep)
  {
    assert ([x] + parts)[1..] == parts;
  }

  /** A string with a separator is what lies before the first, the separator, and the rest. */
  lemma SplitStep(s: string, sep: char) returns (x: string, rest: string)
    requires sep in s
    ensures sep !in x && s == x + [sep] + rest && |rest| < |s|
    ensures Split(s, sep) == [x] + Split(rest, sep)
  {
    var i := IndexOf(s, sep);
    x, rest := s[..i], s[i + 1..];
  }

  /** Joining a split string gives the string back, whatever it holds. */
  lemma {:induction false} JoinSplit(s: string, sep: char)
    ensures Join(Split(s, sep), sep) == s
    decreases |s|
  {
    if sep in s {
      var x, rest := SplitStep(s, sep);
      JoinSplit(rest, sep);
      JoinPrepend(x, sep, Split(rest, sep));
    } else {
      SplitOne(s, sep);
    }
  }

  lemma Regroup<T>(x: seq<T>, sep: seq<T>, rest: seq<T>, b: seq<T>)
    ensures x + sep + rest + sep + b == x + sep + (rest + sep + b)
    ensures x + rest + b == x + (rest + b)
  {
  }

  /** Splitting does not look across a separator. */
  lemma {:induction false} SplitConcat(a: string, sep: char, b: string)
    ensures Split(a + [sep] + b, sep) == Split(a, sep) + Split(b, sep)
    decreases |a|
  {
    if sep in a {
      var x, rest := SplitStep(a, sep);
      SplitConcat(rest, sep, b);
      calc {
        Split(a + [sep] + b, sep);
      ==
        Split(x + [sep] + rest + [sep] + b, sep);
      == { Regroup(x, [sep], rest, b); }
        Split(x + [sep] + (rest + [sep] + b), sep);
      == { SplitPrepend(x, sep, rest + [sep] + b); }
        [x] + Split(rest + [sep] + b, sep);
      ==
        [x] + (Split(rest, sep) + Split(b, sep));
      == { Regroup([x], [], Split(rest, sep), Split(b, sep)); }
        Split(a, sep) + Split(b, sep);
      }
    } else {
      SplitOne(a, sep);
      SplitPrepend(a, sep, b);
    }
  }
}
