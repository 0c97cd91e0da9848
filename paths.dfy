/**
 * The standard-library string and path operations that sz.go relies on,
 * written out as Unix Go defines them: path/filepath.Clean, path/filepath.Ext,
 * the base name that os.File.Stat reports, strings.TrimSuffix,
 * strings.Replace with a count of one, and strconv.Itoa for natural numbers.
 */
module Paths {

  predicate HasSuffix(s: string, suffix: string) {
    |suffix| <= |s| && s[|s| - |suffix|..] == suffix
  }

  /** strings.TrimSuffix */
  function TrimSuffix(s: string, suffix: string): (r: string)
    ensures HasSuffix(s, suffix) ==> r + suffix == s
    ensures !HasSuffix(s, suffix) ==> r == s
  {
    if HasSuffix(s, suffix) then s[..|s| - |suffix|] else s
  }

  /**
   * path/filepath.Ext: the suffix of `path` that starts at the last '.' of
   * its final '/'-separated element, or "" when that element has no '.'.
   */
  function Ext(path: string): (r: string)
    ensures HasSuffix(path, r)
    decreases |path|
  {
    if path == [] || path[|path| - 1] == '/' then ""
    else if path[|path| - 1] == '.' then "."
    else
      var r := Ext(path[..|path| - 1]);
      if r == "" then "" else r + [path[|path| - 1]]
  }

  /**
   * Ext is empty exactly when the final element has no '.', and otherwise
   * starts at a '.' and holds no further '.' and no '/'.
   */
  lemma {:induction false} ExtShape(path: string)
    ensures var r := Ext(path);
      r != "" ==> r[0] == '.' && forall k :: 1 <= k < |r| ==> r[k] != '.' && r[k] != '/'
    ensures Ext(path) == "" ==> forall k :: 0 <= k < |path| && path[k] == '.' ==> '/' in path[k + 1..]
    decreases |path|
  {
    if path != [] && path[|path| - 1] != '/' && path[|path| - 1] != '.' {
      var init := path[..|path| - 1];
      ExtShape(init);
      if Ext(path) == "" {
        forall k | 0 <= k < |path| && path[k] == '.' ensures '/' in path[k + 1..] {
          assert init[k] == '.';
          var j :| j in init[k + 1..] && j == '/';
          assert path[k + 1..] == init[k + 1..] + [path[|path| - 1]];
        }
      }
    }
  }

  /** The elements of `s` between '/' separators ("a//b/" gives "a", "", "b", ""). */
  function Elements(s: string): (r: seq<string>)
    ensures |r| >= 1
    ensures forall i :: 0 <= i < |r| ==> '/' !in r[i]
  {
    if s == [] then [""]
    else
      var rest := Elements(s[1..]);
      if s[0] == '/' then [""] + rest else [[s[0]] + rest[0]] + rest[1..]
  }

  function Join(parts: seq<string>): string {
    if parts == [] then ""
    else if |parts| == 1 then parts[0]
    else parts[0] + "/" + Join(parts[1..])
  }

  /** Lexical processing of path elements: drop "" and ".", let ".." cancel the element before it. */
  function CleanElements(elems: seq<string>, stack: seq<string>, rooted: bool): seq<string>
    decreases |elems|
  {
    if elems == [] then stack
    else
      var e := elems[0];
      var stack' :=
        if e == "" || e == "." then stack
        else if e == ".." then
          (if |stack| > 0 && stack[|stack| - 1] != ".." then stack[..|stack| - 1]
           else if rooted then stack
           else stack + [".."])
        else stack + [e];
      CleanElements(elems[1..], stack', rooted)
  }

  /** Path elements as Clean leaves them: non-empty and free of separators. */
  predicate Segments(parts: seq<string>) {
    forall i :: 0 <= i < |parts| ==> parts[i] != "" && '/' !in parts[i]
  }

  lemma {:induction false} CleanElementsSegments(elems: seq<string>, stack: seq<string>, rooted: bool)
    requires forall i :: 0 <= i < |elems| ==> '/' !in elems[i]
    requires Segments(stack)
    ensures Segments(CleanElements(elems, stack, rooted))
    decreases |elems|
  {
    if elems != [] {
      var e := elems[0];
      var stack' :=
        if e == "" || e == "." then stack
        else if e == ".." then
          (if |stack| > 0 && stack[|stack| - 1] != ".." then stack[..|stack| - 1]
           else if rooted then stack
           else stack + [".."])
        else stack + [e];
      assert '/' !in "..";
      assert Segments(stack');
      CleanElementsSegments(elems[1..], stack', rooted);
    }
  }

  /** Joining separator-free, non-empty elements neither starts nor ends with a separator. */
  lemma {:induction false} JoinSegments(parts: seq<string>)
    requires Segments(parts)
    ensures var j := Join(parts); parts != [] ==> j != "" && j[0] != '/' && j[|j| - 1] != '/'
  {
    if |parts| > 1 {
      JoinSegments(parts[1..]);
      var j := Join(parts);
      assert j == parts[0] + "/" + Join(parts[1..]);
      assert j[0] == parts[0][0];
    }
  }

  /**
   * path/filepath.Clean on Unix. The result is never empty, is rooted
   * exactly when the path is, and ends with a separator only when it is "/".
   */
  function Clean(path: string): (r: string)
    ensures r != ""
    ensures r[0] == '/' <==> path != [] && path[0] == '/'
    ensures r == "/" || r[|r| - 1] != '/'
  {
    if path == [] then "."
    else
      var rooted := path[0] == '/';
      var elems := CleanElements(Elements(path), [], rooted);
      CleanElementsSegments(Elements(path), [], rooted);
      JoinSegments(elems);
      var body := Join(elems);
      if rooted then "/" + body
      else if body == [] then "."
      else body
  }

  function StripTrailingSlashes(s: string): (r: string)
    decreases |s|
  {
    if |s| > 1 && s[|s| - 1] == '/' then StripTrailingSlashes(s[..|s| - 1]) else s
  }

  /** What follows the last '/' of `s` (all of `s` when it has none). */
  function AfterLastSlash(s: string): (r: string)
    ensures '/' !in r
    decreases |s|
  {
    if s == [] || s[|s| - 1] == '/' then ""
    else AfterLastSlash(s[..|s| - 1]) + [s[|s| - 1]]
  }

  /**
   * The name that FileInfo.Name() reports for a file opened as `path`:
   * trailing slashes removed, then the leading directories.
   */
  function BaseName(path: string): (r: string)
    ensures r == "/" || '/' !in r
  {
    var s := StripTrailingSlashes(path);
    if s == "/" then s else AfterLastSlash(s)
  }

  /** strings.Replace(s, old, new, 1): replace the first occurrence of `old`, wherever it is. */
  function ReplaceFirst(s: string, pat: string, repl: string): (r: string)
    // at most one occurrence is replaced
    ensures |r| == |s| || |r| + |pat| == |s| + |repl|
    decreases |s|
  {
    if pat == [] then repl + s
    else if |s| < |pat| then s
    else if s[..|pat|] == pat then repl + s[|pat|..]
    else [s[0]] + ReplaceFirst(s[1..], pat, repl)
  }

  predicate OccursAt(s: string, pat: string, k: nat) {
    k + |pat| <= |s| && s[k..k + |pat|] == pat
  }

  lemma {:induction false} ReplaceFirstAt(s: string, pat: string, repl: string, k: nat)
    requires pat != []
    requires OccursAt(s, pat, k)
    requires forall j :: 0 <= j < k ==> !OccursAt(s, pat, j)
    ensures ReplaceFirst(s, pat, repl) == s[..k] + repl + s[k + |pat|..]
    decreases k
  {
    if k > 0 {
      var t := s[1..];
      assert !OccursAt(s, pat, 0);
      forall j | 0 <= j < k - 1 ensures !OccursAt(t, pat, j) {
        ShiftOccurs(s, pat, j);
      }
      ShiftOccurs(s, pat, k - 1);
      ReplaceFirstAt(t, pat, repl, k - 1);
      calc {
        ReplaceFirst(s, pat, repl);
        [s[0]] + ReplaceFirst(t, pat, repl);
        [s[0]] + (t[..k - 1] + repl + t[k - 1 + |pat|..]);
        { assert [s[0]] + t[..k - 1] == s[..k]; assert t[k - 1 + |pat|..] == s[k + |pat|..]; }
        s[..k] + repl + s[k + |pat|..];
      }
    }
  }

  lemma ShiftOccurs(s: string, pat: string, j: nat)
    requires |s| > 0
    ensures OccursAt(s[1..], pat, j) <==> OccursAt(s, pat, j + 1)
  {
    if j + |pat| <= |s| - 1 {
      assert s[1..][j..j + |pat|] == s[j + 1..j + 1 + |pat|];
    }
  }

  lemma {:induction false} ReplaceFirstAbsent(s: string, pat: string, repl: string)
    requires pat != []
    requires forall j :: 0 <= j <= |s| ==> !OccursAt(s, pat, j)
    ensures ReplaceFirst(s, pat, repl) == s
    decreases |s|
  {
    if |s| >= |pat| {
      assert !OccursAt(s, pat, 0);
      forall j | 0 <= j <= |s| - 1 ensures !OccursAt(s[1..], pat, j) {
        ShiftOccurs(s, pat, j);
      }
      ReplaceFirstAbsent(s[1..], pat, repl);
    }
  }

  function Digit(d: nat): char
    requires d < 10
  {
    ('0' as int + d) as char
  }

  /** strconv.Itoa on a natural number: its decimal digits, most significant first. */
  function Itoa(n: nat): (r: string)
    ensures |r| >= 1
    ensures forall k :: 0 <= k < |r| ==> '0' <= r[k] <= '9'
    // The canonical spelling: no leading zero, and "0" only for zero.
    ensures r[0] == '0' <==> n == 0
    ensures |r| == 1 || r[0] != '0'
    decreases n
  {
    if n < 10 then [Digit(n)] else Itoa(n / 10) + [Digit(n % 10)]
  }

  /** The value of a string of decimal digits, most significant first. */
  function DecimalValue(s: string): nat
    requires forall k :: 0 <= k < |s| ==> '0' <= s[k] <= '9'
  {
    if s == [] then 0 else 10 * DecimalValue(s[..|s| - 1]) + (s[|s| - 1] - '0') as nat
  }

  /** Itoa loses nothing: its digits read back as the number, so distinct numbers have distinct spellings. */
  lemma {:induction false} ItoaRoundTrip(n: nat)
    ensures DecimalValue(Itoa(n)) == n
    decreases n
  {
    var r := Itoa(n);
    if n >= 10 {
      ItoaRoundTrip(n / 10);
      assert r[..|r| - 1] == Itoa(n / 10);
      assert (r[|r| - 1] - '0') as nat == n % 10;
    }
  }
}
