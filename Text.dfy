/**
 * The .NET string operations the catalog code relies on, restricted to the
 * ASCII reading of whitespace and case: String.Split on one character,
 * String.Join, String.Trim, ToUpper/ToLower, String.Contains,
 * String.IsNullOrWhiteSpace / IsNullOrEmpty and Path.GetExtension.
 */
module Text {
  import opened Wrappers

  /** The ASCII characters Char.IsWhiteSpace accepts. */
  predicate IsWhiteSpace(c: char)
  {
    c == ' ' || c == '\t' || c == '\n' || c == '\r' || c == '\U{000B}' || c == '\U{000C}'
  }

  /** Every character is whitespace (the empty string included). */
  predicate IsBlank(s: string)
  {
    forall i :: 0 <= i < |s| ==> IsWhiteSpace(s[i])
  }

  /** String.IsNullOrWhiteSpace */
  predicate IsNullOrWhiteSpace(s: Option<string>)
  {
    s.None? || IsBlank(s.value)
  }

  /** String.IsNullOrEmpty */
  predicate IsNullOrEmpty(s: Option<string>)
  {
    s.None? || s.value == []
  }

  /** The number of occurrences of `c` in `s`. */
  function Occurrences(s: string, c: char): nat
  {
    if s == [] then 0 else (if s[0] == c then 1 else 0) + Occurrences(s[1..], c)
  }

  lemma {:induction false} OccurrencesZero(s: string, c: char)
    ensures Occurrences(s, c) == 0 <==> c !in s
  {
    if s != [] {
      OccurrencesZero(s[1..], c);
      assert s == [s[0]] + s[1..];
    }
  }

  lemma {:induction false} OccurrencesAppend(a: string, b: string, c: char)
    ensures Occurrences(a + b, c) == Occurrences(a, c) + Occurrences(b, c)
  {
    if a == [] {
      assert a + b == b;
    } else {
      assert (a + b)[1..] == a[1..] + b;
      OccurrencesAppend(a[1..], b, c);
    }
  }

  /**
   * String.Split(d): the pieces between occurrences of `d`, empty pieces kept.
   * There is always one piece more than there are separators, and no piece
   * contains the separator.
   */
  function Split(s: string, d: char): (r: seq<string>)
    ensures |r| == Occurrences(s, d) + 1
    ensures forall i :: 0 <= i < |r| ==> d !in r[i]
  {
    if s == [] then [[]]
    else
      var rest := Split(s[1..], d);
      if s[0] == d then [[]] + rest
      else [[s[0]] + rest[0]] + rest[1..]
  }

  /** String.Join(sep, parts) */
  function Join(parts: seq<string>, sep: string): string
  {
    if |parts| == 0 then []
    else if |parts| == 1 then parts[0]
    else parts[0] + sep + Join(parts[1..], sep)
  }

  /** Splitting a joined list of separator-free pieces gives the pieces back. */
  lemma {:induction false} SplitJoin(parts: seq<string>, d: char)
    requires |parts| >= 1
    requires forall i :: 0 <= i < |parts| ==> d !in parts[i]
    ensures Split(Join(parts, [d]), d) == parts
  {
    if |parts| == 1 {
      SplitNoSeparator(parts[0], d);
    } else {
      SplitJoin(parts[1..], d);
      SplitPrefix(parts[0], Join(parts[1..], [d]), d);
    }
  }

  /** Splitting a string without the separator gives the string itself. */
  lemma {:induction false} SplitNoSeparator(s: string, d: char)
    requires d !in s
    ensures Split(s, d) == [s]
  {
    if s != [] {
      SplitNoSeparator(s[1..], d);
      assert s == [s[0]] + s[1..];
    }
  }

  /** A separator-free prefix followed by the separator becomes the first piece. */
  lemma {:induction false} SplitPrefix(p: string, t: string, d: char)
    requires d !in p
    ensures Split(p + [d] + t, d) == [p] + Split(t, d)
  {
    if p != [] {
      assert (p + [d] + t)[1..] == p[1..] + [d] + t;
      SplitPrefix(p[1..], t, d);
      assert [p[0]] + p[1..] == p;
    } else {
      assert p + [d] + t == [d] + t;
      assert ([d] + t)[1..] == t;
    }
  }

  /** Joining the pieces of a split with the separator restores the string. */
  lemma {:induction false} JoinSplit(s: string, d: char)
    ensures Join(Split(s, d), [d]) == s
  {
    if s != [] {
      JoinSplit(s[1..], d);
      var rest := Split(s[1..], d);
      if s[0] == d {
        assert Split(s, d) == [[]] + rest;
        assert ([[]] + rest)[1..] == rest;
        assert s == [] + [d] + s[1..];
      } else {
        var r := Split(s, d);
        assert r == [[s[0]] + rest[0]] + rest[1..];
        if |rest| == 1 {
          assert Join(rest, [d]) == rest[0];
          assert s == [s[0]] + rest[0];
        } else {
          assert r[1..] == rest[1..];
          assert Join(rest, [d]) == rest[0] + [d] + Join(rest[1..], [d]);
          assert s == [s[0]] + s[1..];
        }
      }
    }
  }

  function TrimStart(s: string): string
  {
    if s != [] && IsWhiteSpace(s[0]) then TrimStart(s[1..]) else s
  }

  function TrimEnd(s: string): string
  {
    if s != [] && IsWhiteSpace(s[|s| - 1]) then TrimEnd(s[..|s| - 1]) else s
  }

  /** String.Trim(): leading and trailing whitespace removed. */
  function Trim(s: string): string
  {
    TrimEnd(TrimStart(s))
  }

  /** A string that neither starts nor ends with whitespace. */
  predicate IsTrimmed(s: string)
  {
    s == [] || (!IsWhiteSpace(s[0]) && !IsWhiteSpace(s[|s| - 1]))
  }

  /** The number of whitespace characters TrimStart removes. */
  function LeadingBlanks(s: string): (k: nat)
    ensures k <= |s|
  {
    if s != [] && IsWhiteSpace(s[0]) then 1 + LeadingBlanks(s[1..]) else 0
  }

  /** The number of whitespace characters TrimEnd removes. */
  function TrailingBlanks(s: string): (k: nat)
    ensures k <= |s|
  {
    if s != [] && IsWhiteSpace(s[|s| - 1]) then 1 + TrailingBlanks(s[..|s| - 1]) else 0
  }

  /** TrimStart drops a blank prefix and stops at the first other character. */
  lemma {:induction false} TrimStartSpec(s: string)
    ensures TrimStart(s) == s[LeadingBlanks(s)..] && IsBlank(s[..LeadingBlanks(s)])
    ensures TrimStart(s) == [] || !IsWhiteSpace(TrimStart(s)[0])
  {
    if s != [] && IsWhiteSpace(s[0]) {
      TrimStartSpec(s[1..]);
      var k := LeadingBlanks(s[1..]);
      assert s[1..][k..] == s[k + 1..];
      assert s[..k + 1] == [s[0]] + s[1..][..k];
    } else {
      assert s[..0] == [];
    }
  }

  /** TrimEnd drops a blank suffix and stops at the last other character. */
  lemma {:induction false} TrimEndSpec(s: string)
    ensures TrimEnd(s) == s[..|s| - TrailingBlanks(s)] && IsBlank(s[|s| - TrailingBlanks(s)..])
    ensures TrimEnd(s) == [] || !IsWhiteSpace(TrimEnd(s)[|TrimEnd(s)| - 1])
  {
    if s != [] && IsWhiteSpace(s[|s| - 1]) {
      var n := |s| - 1;
      TrimEndSpec(s[..n]);
      var k := n - TrailingBlanks(s[..n]);
      assert s[..n][..k] == s[..k];
      forall m | k <= m < |s| ensures IsWhiteSpace(s[m]) {
        if m < n {
          assert s[m] == s[..n][k..][m - k];
        }
      }
    } else {
      assert s[|s|..] == [];
    }
  }

  /** Where Trim cuts `s`: after its leading and before its trailing whitespace. */
  function TrimBounds(s: string): (b: (nat, nat))
    ensures b.0 <= b.1 <= |s|
  {
    var i := LeadingBlanks(s);
    (i, |s| - TrailingBlanks(s[i..]))
  }

  /** Trim cuts `s` between a blank prefix and a blank suffix. */
  lemma TrimSlice(s: string)
    ensures Trim(s) == s[TrimBounds(s).0..TrimBounds(s).1]
    ensures IsBlank(s[..TrimBounds(s).0]) && IsBlank(s[TrimBounds(s).1..])
  {
    var t := TrimStart(s);
    TrimStartSpec(s);
    TrimEndSpec(t);
    var i := LeadingBlanks(s);
    var k := |t| - TrailingBlanks(t);
    TrimSlices(s, i, k);
  }

  /**
   * What Trim computes: a slice of the input, cut between a blank prefix and
   * a blank suffix, that itself neither starts nor ends with whitespace; it
   * is empty exactly when the input is blank.
   */
  lemma TrimSpec(s: string)
    ensures IsTrimmed(Trim(s))
    ensures Trim(s) == [] <==> IsBlank(s)
    ensures exists i, j :: 0 <= i <= j <= |s| && Trim(s) == s[i..j] && IsBlank(s[..i]) && IsBlank(s[j..])
  {
    var t := TrimStart(s);
    TrimStartSpec(s);
    TrimEndSpec(t);
    TrimSlice(s);
    assert IsBlank(t) <==> t == [] by {
      if t != [] {
        assert !IsWhiteSpace(t[0]);
      }
    }
    if Trim(s) != [] {
      assert Trim(s)[0] == t[0];
    }
  }

  lemma TrimSlices(s: string, i: nat, k: nat)
    requires i <= |s| && k <= |s| - i
    requires IsBlank(s[..i]) && IsBlank(s[i..][k..])
    ensures IsBlank(s[i + k..]) && s[i..][..k] == s[i..i + k]
  {
    assert s[i..][k..] == s[i + k..];
  }

  /** An already trimmed string is left alone by Trim. */
  lemma TrimTrimmed(s: string)
    requires IsTrimmed(s)
    ensures Trim(s) == s
  {
  }

  /** Trim removes no character other than whitespace; in particular it keeps every `c` it is not whitespace. */
  lemma TrimKeepsOthers(s: string, c: char)
    requires !IsWhiteSpace(c)
    ensures Occurrences(Trim(s), c) == Occurrences(s, c)
  {
    TrimSlice(s);
    var (i, j) := TrimBounds(s);
    BlankOccurrences(s[..i], c);
    BlankOccurrences(s[j..], c);
    assert s == s[..i] + s[i..j] + s[j..];
    OccurrencesAppend(s[..i] + s[i..j], s[j..], c);
    OccurrencesAppend(s[..i], s[i..j], c);
  }

  lemma BlankOccurrences(s: string, c: char)
    requires IsBlank(s) && !IsWhiteSpace(c)
    ensures Occurrences(s, c) == 0
  {
    OccurrencesZero(s, c);
  }

  /** Upper-casing of one ASCII letter; every other character is kept. C# ToUpper() maps by the current culture. */
  function UpperChar(c: char): char
  {
    if 'a' <= c <= 'z' then (c as int - 'a' as int + 'A' as int) as char else c
  }

  function LowerChar(c: char): char
  {
    if 'A' <= c <= 'Z' then (c as int - 'A' as int + 'a' as int) as char else c
  }

  /** String.ToUpper(): character by character, same length. */
  function ToUpper(s: string): (r: string)
    ensures |r| == |s| && forall i :: 0 <= i < |s| ==> r[i] == UpperChar(s[i])
  {
    seq(|s|, i requires 0 <= i < |s| => UpperChar(s[i]))
  }

  /** String.ToLower(): character by character, same length. */
  function ToLower(s: string): (r: string)
    ensures |r| == |s| && forall i :: 0 <= i < |s| ==> r[i] == LowerChar(s[i])
  {
    seq(|s|, i requires 0 <= i < |s| => LowerChar(s[i]))
  }

  /** No ASCII lower-case letter occurs in `s`. */
  predicate IsUpper(s: string)
  {
    forall i :: 0 <= i < |s| ==> !('a' <= s[i] <= 'z')
  }

  /**
   * Upper-casing yields an upper-case string, leaves an upper-case string
   * alone, keeps the string blank exactly when it was, keeps it trimmed and
   * keeps every character that is not a letter.
   */
  lemma ToUpperSpec(s: string)
    ensures IsUpper(ToUpper(s))
    ensures IsUpper(s) ==> ToUpper(s) == s
    ensures IsBlank(ToUpper(s)) <==> IsBlank(s)
    ensures IsTrimmed(s) ==> IsTrimmed(ToUpper(s))
    ensures forall c :: !('a' <= c <= 'z') && !('A' <= c <= 'Z') ==> (c in ToUpper(s) <==> c in s)
  {
    var u := ToUpper(s);
    forall c | !('a' <= c <= 'z') && !('A' <= c <= 'Z')
      ensures c in u <==> c in s
    {
      if c in u {
        var i :| 0 <= i < |u| && u[i] == c;
        assert s[i] == c;
      }
      if c in s {
        var i :| 0 <= i < |s| && s[i] == c;
        assert u[i] == c;
      }
    }
  }

  /** String.Contains(sub), ordinal comparison. */
  function Contains(s: string, sub: string): bool
  {
    sub <= s || (s != [] && Contains(s[1..], sub))
  }

  lemma {:induction false} ContainsFound(s: string, sub: string)
    requires Contains(s, sub)
    ensures exists a, b :: s == a + sub + b
  {
    if sub <= s {
      assert s == [] + sub + s[|sub|..];
    } else {
      ContainsFound(s[1..], sub);
      var a, b :| s[1..] == a + sub + b;
      assert s == ([s[0]] + a) + sub + b;
    }
  }

  lemma {:induction false} ContainsBlock(a: string, sub: string, b: string)
    ensures Contains(a + sub + b, sub)
  {
    var s := a + sub + b;
    if a == [] {
      assert s == sub + b;
    } else {
      assert s[1..] == a[1..] + sub + b;
      ContainsBlock(a[1..], sub, b);
    }
  }

  /** `s` contains `sub` exactly when `sub` occurs in it as a contiguous block. */
  lemma ContainsSpec(s: string, sub: string)
    ensures Contains(s, sub) <==> exists a, b :: s == a + sub + b
  {
    if Contains(s, sub) {
      ContainsFound(s, sub);
    }
    forall a, b | s == a + sub + b ensures Contains(s, sub) {
      ContainsBlock(a, sub, b);
    }
  }

  /** The directory separators Path.GetExtension stops at. */
  predicate IsDirectorySeparator(c: char)
  {
    c == '/' || c == '\\'
  }

  /**
   * The index of the last '.' among the first `n` characters of `p` that no
   * directory separator follows there, or -1.
   */
  function LastDot(p: string, n: nat): (r: int)
    requires n <= |p|
    ensures -1 <= r < n
    ensures r >= 0 ==> p[r] == '.'
  {
    if n == 0 then -1
    else if p[n - 1] == '.' then n - 1
    else if IsDirectorySeparator(p[n - 1]) then -1
    else LastDot(p, n - 1)
  }

  /**
   * Path.GetExtension: from the last '.' of the file name to the end, or the
   * empty string when there is no such '.' or nothing follows it.
   */
  function Extension(p: string): string
  {
    var i := LastDot(p, |p|);
    if i < 0 || i == |p| - 1 then [] else p[i..]
  }

  /** The path ends in ".csv" in any mix of upper and lower case. */
  predicate HasCsvSuffix(p: string)
  {
    |p| >= 4 && ToLower(p[|p| - 4..]) == ".csv"
  }

  /** The lower-cased extension is ".csv" exactly when the path ends in ".csv", ignoring case. */
  lemma CsvExtension(p: string)
    ensures ToLower(Extension(p)) == ".csv" <==> HasCsvSuffix(p)
  {
    var n := |p|;
    if HasCsvSuffix(p) {
      var t := ToLower(p[n - 4..]);
      assert t[0] == LowerChar(p[n - 4]) && t[1] == LowerChar(p[n - 3]);
      assert t[2] == LowerChar(p[n - 2]) && t[3] == LowerChar(p[n - 1]);
      assert p[n - 4] == '.';
      assert p[n - 3] != '.' && !IsDirectorySeparator(p[n - 3]);
      assert p[n - 2] != '.' && !IsDirectorySeparator(p[n - 2]);
      assert p[n - 1] != '.' && !IsDirectorySeparator(p[n - 1]);
      assert LastDot(p, n - 3) == n - 4;
      assert LastDot(p, n - 2) == n - 4;
      assert LastDot(p, n - 1) == n - 4;
      assert LastDot(p, n) == n - 4;
      assert Extension(p) == p[n - 4..];
    }
    if ToLower(Extension(p)) == ".csv" {
      var i := LastDot(p, n);
      assert i >= 0 && i != n - 1;
      assert |p[i..]| == 4;
      assert p[i..] == p[n - 4..];
    }
  }
}
