/** The name normalisers of src/utils.ts: `toKebabCase` (job ids and
    concurrency groups) and `toGithubJobId`.  Both are chains of global
    regular-expression replaces followed by a lower-casing step; every
    replace of a run `[^k]+` by `-` is `ReplaceRuns`.  After the first replace
    only ASCII is left, so lower-casing is ASCII lower-casing. */
module Names {

  predicate IsLower(c: char) { 'a' <= c <= 'z' }
  predicate IsUpper(c: char) { 'A' <= c <= 'Z' }
  predicate IsDigit(c: char) { '0' <= c <= '9' }
  predicate IsAlnum(c: char) { IsLower(c) || IsUpper(c) || IsDigit(c) }

  /** The character classes kept by the three run-replacing regexes. */
  datatype CharClass =
    | Alnum      // [a-zA-Z0-9]
    | JobIdChar  // [A-Za-z0-9_-]
    | NonHyphen  // every character but '-', so that `[^k]+` is `-+`

  predicate InClass(c: char, k: CharClass) {
    match k
    case Alnum => IsAlnum(c)
    case JobIdChar => IsAlnum(c) || c == '_' || c == '-'
    case NonHyphen => c != '-'
  }

  predicate NoDoubleHyphen(s: string) {
    forall i :: 0 <= i < |s| - 1 ==> s[i] != '-' || s[i + 1] != '-'
  }

  predicate NoEdgeHyphen(s: string) {
    s == [] || (s[0] != '-' && s[|s| - 1] != '-')
  }

  predicate AllHyphens(s: string) {
    forall i :: 0 <= i < |s| ==> s[i] == '-'
  }

  /** The characters of `s` that belong to class `k`, in order. */
  function Kept(s: string, k: CharClass): string {
    if s == [] then []
    else (if InClass(s[0], k) then [s[0]] else []) + Kept(s[1..], k)
  }

  /** `s.replace(/[^k]+/g, '-')`: every maximal run of characters outside
      class `k` becomes one hyphen.  `inRun` says that the character before
      `s` was already part of such a run. */
  function ReplaceRuns(s: string, k: CharClass, inRun: bool): string {
    if s == [] then []
    else if InClass(s[0], k) then [s[0]] + ReplaceRuns(s[1..], k, false)
    else if inRun then ReplaceRuns(s[1..], k, true)
    else "-" + ReplaceRuns(s[1..], k, true)
  }

  /** The shape of a run replace: no longer than its input, made of hyphens
      and kept characters, no doubled hyphen (and no leading one inside a
      run) when hyphens are not kept, and the kept characters unchanged. */
  lemma ReplaceRunsShape(s: string, k: CharClass, inRun: bool)
    ensures var r := ReplaceRuns(s, k, inRun);
      && |r| <= |s|
      && (forall i :: 0 <= i < |r| ==> r[i] == '-' || InClass(r[i], k))
      && (!InClass('-', k) ==> NoDoubleHyphen(r) && (inRun ==> r == [] || r[0] != '-'))
      && (!InClass('-', k) ==> Kept(r, k) == Kept(s, k))
  {
    ReplaceRunsChars(s, k, inRun);
    if !InClass('-', k) {
      ReplaceRunsSingleHyphens(s, k, inRun);
      ReplaceRunsKeeps(s, k, inRun);
    }
  }

  lemma {:induction false} ReplaceRunsChars(s: string, k: CharClass, inRun: bool)
    ensures var r := ReplaceRuns(s, k, inRun);
      |r| <= |s| && forall i :: 0 <= i < |r| ==> r[i] == '-' || InClass(r[i], k)
  {
    if s != [] {
      var rest := s[1..];
      var r := ReplaceRuns(s, k, inRun);
      if InClass(s[0], k) {
        ReplaceRunsChars(rest, k, false);
        assert r == [s[0]] + ReplaceRuns(rest, k, false);
      } else if inRun {
        ReplaceRunsChars(rest, k, true);
      } else {
        ReplaceRunsChars(rest, k, true);
        assert r == "-" + ReplaceRuns(rest, k, true);
      }
    }
  }

  lemma {:induction false} ReplaceRunsSingleHyphens(s: string, k: CharClass, inRun: bool)
    requires !InClass('-', k)
    ensures var r := ReplaceRuns(s, k, inRun);
      NoDoubleHyphen(r) && (inRun ==> r == [] || r[0] != '-')
  {
    if s != [] {
      var rest := s[1..];
      var r := ReplaceRuns(s, k, inRun);
      if InClass(s[0], k) {
        ReplaceRunsSingleHyphens(rest, k, false);
        var t := ReplaceRuns(rest, k, false);
        assert r == [s[0]] + t && r[0] == s[0];
        forall i | 0 <= i < |r| - 1 ensures r[i] != '-' || r[i + 1] != '-' {
          if i > 0 { assert r[i] == t[i - 1] && r[i + 1] == t[i]; }
        }
      } else if inRun {
        ReplaceRunsSingleHyphens(rest, k, true);
      } else {
        ReplaceRunsSingleHyphens(rest, k, true);
        var t := ReplaceRuns(rest, k, true);
        assert r == "-" + t;
        forall i | 0 <= i < |r| - 1 ensures r[i] != '-' || r[i + 1] != '-' {
          if i > 0 { assert r[i] == t[i - 1] && r[i + 1] == t[i]; }
        }
      }
    }
  }

  lemma {:induction false} ReplaceRunsKeeps(s: string, k: CharClass, inRun: bool)
    requires !InClass('-', k)
    ensures Kept(ReplaceRuns(s, k, inRun), k) == Kept(s, k)
  {
    if s != [] {
      var rest := s[1..];
      var r := ReplaceRuns(s, k, inRun);
      assert s == [s[0]] + rest;
      KeptConcat([s[0]], rest, k);
      if InClass(s[0], k) {
        ReplaceRunsKeeps(rest, k, false);
        KeptConcat([s[0]], ReplaceRuns(rest, k, false), k);
      } else if inRun {
        ReplaceRunsKeeps(rest, k, true);
      } else {
        ReplaceRunsKeeps(rest, k, true);
        KeptConcat("-", ReplaceRuns(rest, k, true), k);
      }
    }
  }

  /** The length of the leading run of hyphens. */
  function LeadingHyphens(s: string): (n: nat)
    ensures n <= |s|
    ensures AllHyphens(s[..n])
    ensures n < |s| ==> s[n] != '-'
  {
    if s != [] && s[0] == '-' then 1 + LeadingHyphens(s[1..]) else 0
  }

  /** The length of the trailing run of hyphens. */
  function TrailingHyphens(s: string): (n: nat)
    ensures n <= |s|
    ensures AllHyphens(s[|s| - n..])
    ensures n < |s| ==> s[|s| - 1 - n] != '-'
  {
    if s != [] && s[|s| - 1] == '-' then 1 + TrailingHyphens(s[..|s| - 1]) else 0
  }

  /** `s.replace(/^-+|-+$/g, '')`: the window of `s` between its leading and
      its trailing run of hyphens. */
  function TrimHyphens(s: string): (r: string)
    ensures NoEdgeHyphen(r)
    ensures LeadingHyphens(s) + |r| <= |s|
    ensures r == s[LeadingHyphens(s)..LeadingHyphens(s) + |r|]
    ensures AllHyphens(s[..LeadingHyphens(s)]) && AllHyphens(s[LeadingHyphens(s) + |r|..])
  {
    var a := LeadingHyphens(s);
    var t := s[a..];
    var m := TrailingHyphens(t);
    var b := a + |t| - m;
    assert s[b..] == t[|t| - m..];
    assert b > a ==> s[a] == t[0] && s[b - 1] == t[|t| - 1 - m];
    s[a..b]
  }

  function LowerChar(c: char): char {
    if IsUpper(c) then (c as int + 32) as char else c
  }

  /** `toLowerCase()` on an ASCII string. */
  function ToLower(s: string): string {
    seq(|s|, i requires 0 <= i < |s| => LowerChar(s[i]))
  }

  // ---------------------------------------------------------------------
  // toKebabCase (src/utils.ts:4-9)

  predicate IsKebabChar(c: char) { IsLower(c) || IsDigit(c) || c == '-' }

  /** The shape every kebab-cased name has. */
  predicate IsKebab(s: string) {
    && (forall i :: 0 <= i < |s| ==> IsKebabChar(s[i]))
    && NoDoubleHyphen(s)
    && NoEdgeHyphen(s)
  }

  function ToKebabCase(s: string): string {
    ToLower(TrimHyphens(ReplaceRuns(s, Alnum, false)))
  }

  /** Every result of `toKebabCase` is in kebab case. */
  lemma KebabShape(s: string)
    ensures IsKebab(ToKebabCase(s))
  {
    var t := ReplaceRuns(s, Alnum, false);
    var u := TrimHyphens(t);
    ReplaceRunsChars(s, Alnum, false);
    ReplaceRunsSingleHyphens(s, Alnum, false);
    TrimKeepsNoDoubleHyphen(t);
    TrimKeepsChars(t, Alnum);
    LowerKeepsShape(u);
    LowerKebabChars(u);
  }

  /** Lower-casing turns letters, digits and hyphens into kebab characters. */
  lemma LowerKebabChars(u: string)
    requires forall i :: 0 <= i < |u| ==> u[i] == '-' || IsAlnum(u[i])
    ensures forall i :: 0 <= i < |ToLower(u)| ==> IsKebabChar(ToLower(u)[i])
  {
  }

  // ---------------------------------------------------------------------
  // toGithubJobId (src/utils.ts:15-24)

  predicate IsJobIdOutChar(c: char) { IsLower(c) || IsDigit(c) || c == '_' || c == '-' }

  /** The shape of the string `toGithubJobId` builds before the prefix test. */
  predicate IsCleanId(s: string) {
    && (forall i :: 0 <= i < |s| ==> IsJobIdOutChar(s[i]))
    && NoDoubleHyphen(s)
    && NoEdgeHyphen(s)
  }

  /** Lines 16-19: the three replaces and the lower-casing. */
  function CleanJobId(s: string): string {
    ToLower(TrimHyphens(ReplaceRuns(ReplaceRuns(s, JobIdChar, false), NonHyphen, false)))
  }

  /** What the three replaces and the lower-casing leave: lower-case letters,
      digits, `_` and single inner hyphens. */
  lemma CleanShape(s: string)
    ensures IsCleanId(CleanJobId(s))
  {
    var step1 := ReplaceRuns(s, JobIdChar, false);
    var step2 := ReplaceRuns(step1, NonHyphen, false);
    ReplaceRunsChars(s, JobIdChar, false);
    ReplaceRunsSingleHyphens(step1, NonHyphen, false);
    ReplaceRunsWithin(step1, NonHyphen, false, JobIdChar);
    TrimKeepsNoDoubleHyphen(step2);
    LowerKeepsShape(TrimHyphens(step2));
  }

  /** A replace puts only hyphens and characters of its input in its
      output, so it keeps every class that holds both. */
  lemma {:induction false} ReplaceRunsWithin(s: string, k: CharClass, inRun: bool, p: CharClass)
    requires InClass('-', p)
    requires forall i :: 0 <= i < |s| ==> InClass(s[i], p)
    ensures forall i :: 0 <= i < |ReplaceRuns(s, k, inRun)| ==> InClass(ReplaceRuns(s, k, inRun)[i], p)
  {
    if s != [] {
      var rest := s[1..];
      ReplaceRunsWithin(rest, k, false, p);
      ReplaceRunsWithin(rest, k, true, p);
      var r := ReplaceRuns(s, k, inRun);
      forall i | 0 <= i < |r| ensures InClass(r[i], p) {
        if InClass(s[0], k) {
          var t := ReplaceRuns(rest, k, false);
          assert r == [s[0]] + t;
          if i > 0 { assert r[i] == t[i - 1]; }
        } else if !inRun {
          var t := ReplaceRuns(rest, k, true);
          assert r == "-" + t;
          if i > 0 { assert r[i] == t[i - 1]; }
        }
      }
    }
  }

  /** `!out || !/^[a-z_]/i.test(out)` (line 20). */
  predicate NeedsPrefix(out: string) {
    out == [] || !(IsLower(out[0]) || IsUpper(out[0]) || out[0] == '_')
  }

  /** A legal GitHub Actions job id: it starts with a letter or an underscore
      and holds only lower-case letters, digits, `_` and `-` (lines 12-13). */
  function ToGithubJobId(s: string): (r: string)
    ensures r != [] && (IsLower(r[0]) || r[0] == '_')
    ensures forall i :: 0 <= i < |r| ==> IsJobIdOutChar(r[i])
  {
    var out := CleanJobId(s);
    CleanShape(s);
    if NeedsPrefix(out) then PrefixKeepsChars(out); "s-" + out else out
  }

  // ---------------------------------------------------------------------
  // Lemmas

  lemma PrefixKeepsChars(out: string)
    requires forall i :: 0 <= i < |out| ==> IsJobIdOutChar(out[i])
    ensures forall i :: 0 <= i < |"s-" + out| ==> IsJobIdOutChar(("s-" + out)[i])
  {
    var t := "s-" + out;
    forall i | 0 <= i < |t| ensures IsJobIdOutChar(t[i]) {
      if i >= 2 {
        assert t[i] == out[i - 2];
      }
    }
  }

  lemma TrimKeepsChars(t: string, k: CharClass)
    requires forall i :: 0 <= i < |t| ==> t[i] == '-' || InClass(t[i], k)
    ensures forall i :: 0 <= i < |TrimHyphens(t)| ==> TrimHyphens(t)[i] == '-' || InClass(TrimHyphens(t)[i], k)
  {
    var r := TrimHyphens(t);
    var a := LeadingHyphens(t);
    forall i | 0 <= i < |r| ensures r[i] == '-' || InClass(r[i], k) {
      assert r[i] == t[a + i];
    }
  }

  lemma TrimKeepsNoDoubleHyphen(t: string)
    requires NoDoubleHyphen(t)
    ensures NoDoubleHyphen(TrimHyphens(t))
  {
    var r := TrimHyphens(t);
    var a := LeadingHyphens(t);
    forall i | 0 <= i < |r| - 1 ensures r[i] != '-' || r[i + 1] != '-' {
      assert r[i] == t[a + i] && r[i + 1] == t[a + i + 1];
    }
  }

  /** Lower-casing moves no hyphen. */
  lemma LowerKeepsShape(r: string)
    ensures NoDoubleHyphen(r) ==> NoDoubleHyphen(ToLower(r))
    ensures NoEdgeHyphen(r) ==> NoEdgeHyphen(ToLower(r))
    ensures forall i :: 0 <= i < |r| ==> (ToLower(r)[i] == '-' <==> r[i] == '-')
  {
  }

  lemma {:induction false} KeptConcat(x: string, y: string, k: CharClass)
    ensures Kept(x + y, k) == Kept(x, k) + Kept(y, k)
  {
    if x == [] {
      assert x + y == y;
    } else {
      var head := if InClass(x[0], k) then [x[0]] else [];
      assert (x + y)[0] == x[0];
      assert (x + y)[1..] == x[1..] + y;
      KeptConcat(x[1..], y, k);
      assert Kept(x + y, k) == head + (Kept(x[1..], k) + Kept(y, k));
      assert head + (Kept(x[1..], k) + Kept(y, k)) == (head + Kept(x[1..], k)) + Kept(y, k);
    }
  }

  lemma {:induction false} KeptOfHyphens(x: string, k: CharClass)
    requires AllHyphens(x) && !InClass('-', k)
    ensures Kept(x, k) == []
  {
    if x != [] {
      KeptOfHyphens(x[1..], k);
    }
  }

  lemma {:induction false} KeptOfLower(x: string)
    ensures Kept(ToLower(x), Alnum) == ToLower(Kept(x, Alnum))
  {
    if x != [] {
      assert ToLower(x) == [LowerChar(x[0])] + ToLower(x[1..]);
      KeptOfLower(x[1..]);
      KeptConcat([LowerChar(x[0])], ToLower(x[1..]), Alnum);
      var head := if IsAlnum(x[0]) then [x[0]] else [];
      assert ToLower(head + Kept(x[1..], Alnum)) == ToLower(head) + ToLower(Kept(x[1..], Alnum));
    }
  }

  /** Trimming removes hyphens only. */
  lemma KeptOfTrim(t: string, k: CharClass)
    requires !InClass('-', k)
    ensures Kept(TrimHyphens(t), k) == Kept(t, k)
  {
    var r := TrimHyphens(t);
    var a := LeadingHyphens(t);
    var b := a + |r|;
    var pre, post := t[..a], t[b..];
    SplitThree(t, a, b);
    KeptConcat(pre + r, post, k);
    KeptConcat(pre, r, k);
    KeptOfHyphens(pre, k);
    KeptOfHyphens(post, k);
    assert Kept(t, k) == Kept(pre, k) + Kept(r, k) + Kept(post, k);
    assert [] + Kept(r, k) + [] == Kept(r, k);
  }

  lemma SplitThree(t: string, a: int, b: int)
    requires 0 <= a <= b <= |t|
    ensures t == t[..a] + t[a..b] + t[b..]
  {
  }

  /** A string that is already in the shape a replace produces is left alone. */
  lemma {:induction false} ReplaceRunsIdentity(s: string, k: CharClass, inRun: bool)
    requires forall i :: 0 <= i < |s| ==> InClass(s[i], k) || s[i] == '-'
    requires NoDoubleHyphen(s)
    requires inRun ==> s == [] || InClass(s[0], k)
    ensures ReplaceRuns(s, k, inRun) == s
  {
    if s != [] {
      if InClass(s[0], k) {
        ReplaceRunsIdentity(s[1..], k, false);
      } else {
        assert |s| > 1 ==> s[1] != '-';
        ReplaceRunsIdentity(s[1..], k, true);
      }
    }
  }

  lemma TrimIdentity(s: string)
    requires NoEdgeHyphen(s)
    ensures TrimHyphens(s) == s
  {
    assert LeadingHyphens(s) == 0;
    assert s[0..] == s;
  }

  lemma LowerIdentity(s: string)
    requires forall i :: 0 <= i < |s| ==> !IsUpper(s[i])
    ensures ToLower(s) == s
  {
  }

  /** Kebab case is a fixed point of `toKebabCase`. */
  lemma KebabFixesKebab(t: string)
    requires IsKebab(t)
    ensures ToKebabCase(t) == t
  {
    ReplaceRunsIdentity(t, Alnum, false);
    TrimIdentity(t);
    LowerIdentity(t);
    KebabOfFixedPoint(t);
  }

  lemma KebabOfFixedPoint(t: string)
    requires ReplaceRuns(t, Alnum, false) == t && TrimHyphens(t) == t && ToLower(t) == t
    ensures ToKebabCase(t) == t
  {
  }

  /** A name made only of ASCII letters and digits is just lower-cased. */
  lemma KebabOfAlnum(s: string)
    requires forall i :: 0 <= i < |s| ==> IsAlnum(s[i])
    ensures ToKebabCase(s) == ToLower(s)
  {
    ReplaceRunsIdentity(s, Alnum, false);
    TrimIdentity(s);
  }

  /** `toKebabCase` is idempotent. */
  lemma KebabIdempotent(s: string)
    ensures ToKebabCase(ToKebabCase(s)) == ToKebabCase(s)
  {
    KebabShape(s);
    KebabFixesKebab(ToKebabCase(s));
  }

  /** With its hyphens taken out, the kebab-cased name is the input's letters
      and digits, lower-cased, in order. */
  lemma KebabKeepsAlnum(s: string)
    ensures Kept(ToKebabCase(s), Alnum) == ToLower(Kept(s, Alnum))
  {
    var t := ReplaceRuns(s, Alnum, false);
    var u := TrimHyphens(t);
    assert ToKebabCase(s) == ToLower(u);
    ReplaceRunsKeeps(s, Alnum, false);
    KeptOfTrim(t, Alnum);
    KeptOfLower(u);
  }

  /** The kebab-cased name is empty exactly when the input has no ASCII
      letter or digit. */
  lemma KebabEmptyIff(s: string)
    ensures ToKebabCase(s) == [] <==> Kept(s, Alnum) == []
  {
    var r := ToKebabCase(s);
    KebabShape(s);
    KebabKeepsAlnum(s);
    if r != [] {
      assert IsAlnum(r[0]);
      assert Kept(r, Alnum) != [];
    }
  }

  lemma CleanFixesClean(t: string)
    requires IsCleanId(t)
    ensures CleanJobId(t) == t
  {
    CleanIdSteps(t);
    CleanOfFixedPoint(t);
  }

  /** Each step of the clean leaves a clean id as it is. */
  lemma CleanIdSteps(t: string)
    requires IsCleanId(t)
    ensures ReplaceRuns(t, JobIdChar, false) == t && ReplaceRuns(t, NonHyphen, false) == t
    ensures TrimHyphens(t) == t && ToLower(t) == t
  {
    CleanIdReplaceFixed(t, JobIdChar);
    CleanIdReplaceFixed(t, NonHyphen);
    TrimIdentity(t);
    LowerIdentity(t);
  }

  lemma CleanIdReplaceFixed(t: string, k: CharClass)
    requires IsCleanId(t) && k != Alnum
    ensures ReplaceRuns(t, k, false) == t
  {
    ReplaceRunsIdentity(t, k, false);
  }

  lemma CleanOfFixedPoint(t: string)
    requires ReplaceRuns(t, JobIdChar, false) == t && ReplaceRuns(t, NonHyphen, false) == t
    requires TrimHyphens(t) == t && ToLower(t) == t
    ensures CleanJobId(t) == t
  {
  }

  /** The `s-` prefix is added exactly when the cleaned string is empty or
      starts with a digit; otherwise the cleaned string is the job id. */
  lemma JobIdPrefixRule(s: string)
    ensures var c := CleanJobId(s);
      && (ToGithubJobId(s) == c <==> c != [] && !IsDigit(c[0]))
      && (ToGithubJobId(s) != c ==> ToGithubJobId(s) == "s-" + c)
  {
    var c := CleanJobId(s);
    CleanShape(s);
    if c != [] {
      assert IsJobIdOutChar(c[0]) && c[0] != '-';
    }
  }

  /** Two clean-shaped pieces that do not meet in a double hyphen. */
  lemma ConcatIsClean(p: string, k: string)
    requires forall i :: 0 <= i < |p| ==> IsJobIdOutChar(p[i])
    requires forall i :: 0 <= i < |k| ==> IsJobIdOutChar(k[i])
    requires NoDoubleHyphen(p) && NoDoubleHyphen(k)
    requires p != [] && p[0] != '-'
    requires k != [] && k[0] != '-' && k[|k| - 1] != '-'
    ensures IsCleanId(p + k)
  {
    var t := p + k;
    forall i | 0 <= i < |t| - 1 ensures t[i] != '-' || t[i + 1] != '-' {
      if i >= |p| {
        assert t[i] == k[i - |p|] && t[i + 1] == k[i - |p| + 1];
      } else if i + 1 < |p| {
        assert t[i] == p[i] && t[i + 1] == p[i + 1];
      }
    }
  }

  lemma SPrefixIsClean(c: string)
    requires IsCleanId(c) && c != []
    ensures IsCleanId("s-" + c)
  {
    var t := "s-" + c;
    forall i | 0 <= i < |t| - 1 ensures t[i] != '-' || t[i + 1] != '-' {
      if i >= 2 {
        assert t[i] == c[i - 2] && t[i + 1] == c[i - 1];
      }
    }
  }

  /** `toGithubJobId` is idempotent exactly when the cleaned input is not
      empty: `""` becomes `"s-"`, which becomes `"s"`. */
  lemma JobIdIdempotentIff(s: string)
    ensures ToGithubJobId(ToGithubJobId(s)) == ToGithubJobId(s) <==> CleanJobId(s) != []
  {
    var c := CleanJobId(s);
    var r := ToGithubJobId(s);
    CleanShape(s);
    if c == [] {
      assert r == "s-";
      JobIdOfEmpty(s[..0]);
      JobIdOfSHyphen(r);
    } else if NeedsPrefix(c) {
      SPrefixIsClean(c);
      CleanFixesClean(r);
    } else {
      CleanFixesClean(c);
    }
  }

  /** The concrete counterexample to idempotence: `""` becomes `"s-"` ... */
  lemma JobIdOfEmpty(e: string)
    requires e == ""
    ensures ToGithubJobId(e) == "s-"
  {
    assert CleanJobId(e) == "";
  }

  /** ... and `"s-"` becomes `"s"`. */
  lemma JobIdOfSHyphen(t: string)
    requires t == "s-"
    ensures ToGithubJobId(t) == "s"
  {
    CleanOfSHyphen(t);
    JobIdPrefixRule(t);
  }

  lemma CleanOfSHyphen(t: string)
    requires t == "s-"
    ensures CleanJobId(t) == "s"
  {
    assert t[0] == 's' && t[1] == '-';
    ReplaceRunsIdentity(t, JobIdChar, false);
    ReplaceRunsIdentity(t, NonHyphen, false);
    assert LeadingHyphens(t) == 0;
    assert TrailingHyphens(t[..1]) == 0;
    assert TrailingHyphens(t) == 1;
    assert TrimHyphens(t) == t[..1];
    assert ToLower(t[..1]) == t[..1];
  }

  // ---------------------------------------------------------------------
  // What a run replace does: each maximal run becomes one hyphen

  /** A run of characters outside the class, between two kept characters
      (or an end of the string), becomes exactly one hyphen. */
  lemma {:induction false} RunBecomesOneHyphen(x: string, sep: string, y: string, k: CharClass)
    requires x == [] || InClass(x[|x| - 1], k)
    requires sep != [] && forall i :: 0 <= i < |sep| ==> !InClass(sep[i], k)
    requires y == [] || InClass(y[0], k)
    ensures ReplaceRuns(x + sep + y, k, false) == ReplaceRuns(x, k, false) + "-" + ReplaceRuns(y, k, false)
  {
    var t := sep + y;
    RunStart(sep, y, k);
    assert x + sep + y == x + t;
    JoinAfterKept(x, t, k, ReplaceRuns(y, k, false));
  }

  /** Two words of letters and digits around any run of other characters
      are kebab-cased into the two lower-cased words joined by one hyphen. */
  lemma KebabOfTwoWords(x: string, sep: string, y: string)
    requires x != [] && forall i :: 0 <= i < |x| ==> IsAlnum(x[i])
    requires y != [] && forall i :: 0 <= i < |y| ==> IsAlnum(y[i])
    requires sep != [] && forall i :: 0 <= i < |sep| ==> !IsAlnum(sep[i])
    ensures ToKebabCase(x + sep + y) == ToLower(x) + "-" + ToLower(y)
  {
    RunBecomesOneHyphen(x, sep, y, Alnum);
    ReplaceRunsIdentity(x, Alnum, false);
    ReplaceRunsIdentity(y, Alnum, false);
    JoinedWords(x, y);
  }

  lemma JoinedWords(x: string, y: string)
    requires x != [] && forall i :: 0 <= i < |x| ==> IsAlnum(x[i])
    requires y != [] && forall i :: 0 <= i < |y| ==> IsAlnum(y[i])
    ensures TrimHyphens(x + "-" + y) == x + "-" + y
    ensures ToLower(x + "-" + y) == ToLower(x) + "-" + ToLower(y)
  {
    var t := x + "-" + y;
    assert t[0] == x[0] && t[|t| - 1] == y[|y| - 1];
    TrimIdentity(t);
    var r := ToLower(x) + "-" + ToLower(y);
    forall i | 0 <= i < |t| ensures ToLower(t)[i] == r[i] {
      if i > |x| {
        assert t[i] == y[i - |x| - 1];
      }
    }
  }

  lemma JoinAfterKept(x: string, t: string, k: CharClass, b: string)
    requires x == [] || InClass(x[|x| - 1], k)
    requires ReplaceRuns(t, k, false) == "-" + b
    ensures ReplaceRuns(x + t, k, false) == ReplaceRuns(x, k, false) + "-" + b
  {
    var a := ReplaceRuns(x, k, false);
    if x == [] {
      assert x + t == t && a == [];
    } else {
      ReplaceRunsAfterKept(x, t, k, false);
    }
    assert a + ("-" + b) == a + "-" + b;
  }

  lemma RunStart(sep: string, y: string, k: CharClass)
    requires sep != [] && forall i :: 0 <= i < |sep| ==> !InClass(sep[i], k)
    requires y == [] || InClass(y[0], k)
    ensures ReplaceRuns(sep + y, k, false) == "-" + ReplaceRuns(y, k, false)
  {
    var t := sep + y;
    assert t[0] == sep[0] && t[1..] == sep[1..] + y;
    ReplaceRunsSkipsRun(sep[1..], y, k);
  }

  /** Once a kept character has been read, the replace starts afresh. */
  lemma {:induction false} ReplaceRunsAfterKept(x: string, y: string, k: CharClass, inRun: bool)
    requires x != [] && InClass(x[|x| - 1], k)
    ensures ReplaceRuns(x + y, k, inRun) == ReplaceRuns(x, k, inRun) + ReplaceRuns(y, k, false)
  {
    var c, x' := x[0], x[1..];
    assert x == [c] + x';
    if x' == [] {
      AfterOneKept(c, y, k, inRun);
      assert [c] + x' == [c];
    } else {
      assert x'[|x'| - 1] == x[|x| - 1];
      ReplaceRunsAfterKept(x', y, k, !InClass(c, k));
      ConsJoin(c, x', y, k, inRun);
    }
  }

  lemma AfterOneKept(c: char, y: string, k: CharClass, inRun: bool)
    requires InClass(c, k)
    ensures ReplaceRuns([c] + y, k, inRun) == ReplaceRuns([c], k, inRun) + ReplaceRuns(y, k, false)
  {
    ReplaceRunsCons(c, y, k, inRun);
    ReplaceRunsCons(c, [], k, inRun);
    assert [c] + [] == [c];
  }

  /** Putting one character in front keeps a split of the output. */
  lemma ConsJoin(c: char, x: string, y: string, k: CharClass, inRun: bool)
    requires ReplaceRuns(x + y, k, !InClass(c, k)) == ReplaceRuns(x, k, !InClass(c, k)) + ReplaceRuns(y, k, false)
    ensures ReplaceRuns([c] + x + y, k, inRun) == ReplaceRuns([c] + x, k, inRun) + ReplaceRuns(y, k, false)
  {
    assert [c] + x + y == [c] + (x + y);
    ReplaceRunsCons(c, x + y, k, inRun);
    ReplaceRunsCons(c, x, k, inRun);
    var h, a, b := StepOutput(c, k, inRun), ReplaceRuns(x, k, !InClass(c, k)), ReplaceRuns(y, k, false);
    assert h + (a + b) == (h + a) + b;
  }

  /** What one character contributes to the replace's output. */
  function StepOutput(c: char, k: CharClass, inRun: bool): string {
    if InClass(c, k) then [c] else if inRun then [] else "-"
  }

  /** One step of the replace. */
  lemma ReplaceRunsCons(c: char, t: string, k: CharClass, inRun: bool)
    ensures ReplaceRuns([c] + t, k, inRun) == StepOutput(c, k, inRun) + ReplaceRuns(t, k, !InClass(c, k))
  {
    assert ([c] + t)[0] == c && ([c] + t)[1..] == t;
  }

  /** Inside a run, the characters outside the class are dropped. */
  lemma {:induction false} ReplaceRunsSkipsRun(sep: string, y: string, k: CharClass)
    requires forall i :: 0 <= i < |sep| ==> !InClass(sep[i], k)
    requires y == [] || InClass(y[0], k)
    ensures ReplaceRuns(sep + y, k, true) == ReplaceRuns(y, k, false)
  {
    if sep == [] {
      assert sep + y == y;
    } else {
      var t := sep + y;
      assert t[0] == sep[0] && t[1..] == sep[1..] + y;
      ReplaceRunsSkipsRun(sep[1..], y, k);
    }
  }
}
