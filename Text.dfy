/**
 * The .NET string operations the mod relies on: Trim, ToLowerInvariant,
 * Replace(pattern, "") and Split(','), and the piece-name normalisation
 * built from them.
 */
module Text {

  /** The characters .NET's char.IsWhiteSpace accepts. */
  predicate IsWhiteSpace(c: char)
  {
    ('\U{0009}' <= c <= '\U{000D}') || c == ' ' || c == '\U{0085}' || c == '\U{00A0}'
    || c == '\U{1680}' || ('\U{2000}' <= c <= '\U{200A}') || c == '\U{2028}' || c == '\U{2029}'
    || c == '\U{202F}' || c == '\U{205F}' || c == '\U{3000}'
  }

  predicate AllWhiteSpace(s: string)
  {
    forall i :: 0 <= i < |s| ==> IsWhiteSpace(s[i])
  }

  /** Neither end of s is white space (the shape String.Trim returns). */
  predicate Trimmed(s: string)
  {
    s == [] || (!IsWhiteSpace(s[0]) && !IsWhiteSpace(s[|s| - 1]))
  }

  /** String.TrimStart(): drops the longest all-white-space prefix. */
  function TrimStart(s: string): (r: string)
    ensures |r| <= |s|
  {
    if s != [] && IsWhiteSpace(s[0]) then TrimStart(s[1..]) else s
  }

  /** TrimStart keeps a suffix, drops only white space, and stops at the first other character. */
  lemma {:induction false} TrimStartSpec(s: string)
    ensures TrimStart(s) == s[|s| - |TrimStart(s)|..]
    ensures AllWhiteSpace(s[..|s| - |TrimStart(s)|])
    ensures TrimStart(s) == [] || !IsWhiteSpace(TrimStart(s)[0])
  {
    if s != [] && IsWhiteSpace(s[0]) {
      TrimStartSpec(s[1..]);
      var n := |s| - |TrimStart(s)|;
      forall i | 0 <= i < n ensures IsWhiteSpace(s[..n][i]) {
        if i > 0 { assert s[..n][i] == s[1..][..n - 1][i - 1]; }
      }
    }
  }

  /** String.TrimEnd(): drops the longest all-white-space suffix. */
  function TrimEnd(s: string): (r: string)
    ensures |r| <= |s|
  {
    if s != [] && IsWhiteSpace(s[|s| - 1]) then TrimEnd(s[..|s| - 1]) else s
  }

  /** TrimEnd keeps a prefix, drops only white space, and stops at the last other character. */
  lemma {:induction false} TrimEndSpec(s: string)
    ensures TrimEnd(s) == s[..|TrimEnd(s)|]
    ensures AllWhiteSpace(s[|TrimEnd(s)|..])
    ensures TrimEnd(s) == [] || !IsWhiteSpace(TrimEnd(s)[|TrimEnd(s)| - 1])
  {
    if s != [] && IsWhiteSpace(s[|s| - 1]) {
      var front := s[..|s| - 1];
      TrimEndSpec(front);
      var n := |TrimEnd(s)|;
      assert front[..n] == s[..n];
      forall i | n <= i < |s| ensures IsWhiteSpace(s[i]) {
        if i < |s| - 1 { assert s[i] == front[n..][i - n]; }
      }
      assert forall i | 0 <= i < |s[n..]| :: s[n..][i] == s[n + i];
    }
  }

  /** How many characters String.TrimStart() drops from s. */
  function Lead(s: string): (n: nat)
    ensures n <= |s|
  {
    |s| - |TrimStart(s)|
  }

  /** String.Trim(): TrimStart, then TrimEnd. */
  function Trim(s: string): (r: string)
    ensures |r| <= |s|
  {
    TrimEnd(TrimStart(s))
  }

  /** Neither end of a trimmed string is white space. */
  lemma TrimShape(s: string)
    ensures Trimmed(Trim(s))
  {
    TrimStartSpec(s);
    TrimEndSpec(TrimStart(s));
  }

  /** Trim keeps a slice of s, with white space only outside it. */
  lemma TrimSlice(s: string)
    ensures Lead(s) + |Trim(s)| <= |s| && Trim(s) == s[Lead(s)..Lead(s) + |Trim(s)|]
    ensures AllWhiteSpace(s[..Lead(s)]) && AllWhiteSpace(s[Lead(s) + |Trim(s)|..])
  {
    var t := TrimStart(s);
    TrimStartSpec(s);
    TrimEndSpec(t);
    var r := Trim(s);
    var a := |s| - |t|;
    assert r == s[a..a + |r|];
    assert s[a + |r|..] == t[|r|..];
  }

  /** Trimming an already trimmed string changes nothing. */
  lemma TrimOfTrimmed(s: string)
    requires Trimmed(s)
    ensures Trim(s) == s
  {
  }

  lemma TrimIdempotent(s: string)
    ensures Trim(Trim(s)) == Trim(s)
  {
    TrimShape(s);
    TrimOfTrimmed(Trim(s));
  }

  /** Trim yields the empty string exactly for all-white-space input. */
  lemma {:induction false} TrimEmptyIff(s: string)
    ensures Trim(s) == [] <==> AllWhiteSpace(s)
  {
    TrimSlice(s);
    var r := Trim(s);
    var a := Lead(s);
    if r == [] {
      forall i | 0 <= i < |s| ensures IsWhiteSpace(s[i]) {
        if i < a { assert s[..a][i] == s[i]; } else { assert s[a..][i - a] == s[i]; }
      }
    } else {
      TrimShape(s);
      assert s[a] == r[0];
    }
  }

  /** Trim only removes characters: whatever it keeps was in its input. */
  lemma TrimKeepsCharsOf(s: string, c: char)
    requires c in Trim(s)
    ensures c in s
  {
    TrimSlice(s);
    var r := Trim(s);
    var a := Lead(s);
    var k :| 0 <= k < |r| && r[k] == c;
    assert s[a + k] == c;
  }

  predicate IsUpper(c: char)
  {
    'A' <= c <= 'Z'
  }

  /** No character of s is an upper-case letter (A-Z). */
  predicate NoUpper(s: string)
  {
    forall i :: 0 <= i < |s| ==> !IsUpper(s[i])
  }

  /** char.ToLowerInvariant, restricted to the ASCII letters. */
  function LowerChar(c: char): (d: char)
    ensures !IsUpper(d)
    ensures d == c || IsUpper(c)
  {
    if IsUpper(c) then (c as int + 32) as char else c
  }

  /** String.ToLowerInvariant (ASCII letters only). */
  function ToLower(s: string): (r: string)
    ensures |r| == |s| && NoUpper(r)
  {
    seq(|s|, i requires 0 <= i < |s| => LowerChar(s[i]))
  }

  lemma ToLowerOfLower(s: string)
    requires NoUpper(s)
    ensures ToLower(s) == s
  {
  }

  /** Two strings that are equal once each letter is lower-cased. */
  predicate EqualsIgnoringCase(s: string, t: string)
  {
    |s| == |t| && forall i :: 0 <= i < |s| ==> LowerChar(s[i]) == LowerChar(t[i])
  }

  /** Comparing s.ToLower() with a lower-case literal is a case-insensitive comparison. */
  lemma ToLowerEqualsIff(s: string, t: string)
    requires NoUpper(t)
    ensures ToLower(s) == t <==> EqualsIgnoringCase(s, t)
  {
    if EqualsIgnoringCase(s, t) {
      forall i | 0 <= i < |s| ensures ToLower(s)[i] == t[i] {
        assert LowerChar(t[i]) == t[i];
      }
    }
  }

  /**
   * String.Replace(pattern, ""): deletes the occurrences of pattern found by
   * a left-to-right scan, the next search starting after each deleted one.
   */
  function RemoveAll(s: string, pattern: string): (r: string)
    requires pattern != []
    ensures |r| <= |s|
    decreases |s|
  {
    if |s| < |pattern| then s
    else if s[..|pattern|] == pattern then RemoveAll(s[|pattern|..], pattern)
    else [s[0]] + RemoveAll(s[1..], pattern)
  }

  /** A pattern holding an upper-case letter never occurs in a string that holds none. */
  lemma {:induction false} RemoveAllNoMatch(s: string, pattern: string, k: nat)
    requires k < |pattern| && IsUpper(pattern[k]) && NoUpper(s)
    ensures RemoveAll(s, pattern) == s
    decreases |s|
  {
    if |s| >= |pattern| {
      assert s[..|pattern|][k] != pattern[k];
      RemoveAllNoMatch(s[1..], pattern, k);
      assert [s[0]] + s[1..] == s;
    }
  }

  /** The suffix Unity appends to the name of an instantiated object. */
  const CloneSuffix: string := "(Clone)"

  /**
   * The normalised name the mod uses for exception and pile lookups:
   * name.Replace("(Clone)", "").Trim().ToLowerInvariant().
   */
  function Normalise(name: string): (r: string)
    ensures |r| <= |name|
  {
    ToLower(Trim(RemoveAll(name, CloneSuffix)))
  }

  /** Removing "(Clone)" from a lower-case name with the suffix appended gives the name back. */
  lemma {:induction false} RemoveCloneSuffix(name: string)
    requires NoUpper(name)
    ensures RemoveAll(name + CloneSuffix, CloneSuffix) == name
    decreases |name|
  {
    var s := name + CloneSuffix;
    if name == [] {
      assert s[..|CloneSuffix|] == CloneSuffix && s[|CloneSuffix|..] == [];
    } else {
      assert s[1] != CloneSuffix[1] by {
        if |name| >= 2 { assert s[1] == name[1]; } else { assert s[1] == CloneSuffix[0]; }
      }
      assert s[..|CloneSuffix|] != CloneSuffix;
      RemoveCloneSuffix(name[1..]);
      assert s[1..] == name[1..] + CloneSuffix;
      assert [s[0]] + name[1..] == name;
    }
  }

  /** The object Unity instantiates from a prefab is looked up under the prefab's own name. */
  lemma NormaliseOfClone(name: string)
    requires NoUpper(name) && Trimmed(name)
    ensures Normalise(name + CloneSuffix) == name
  {
    RemoveCloneSuffix(name);
    TrimOfTrimmed(name);
    ToLowerOfLower(name);
  }

  /** A name with no upper-case letter, no "(Clone)" and no padding is its own normal form. */
  lemma NormaliseOfPlain(name: string)
    requires NoUpper(name) && Trimmed(name)
    ensures Normalise(name) == name
  {
    assert IsUpper(CloneSuffix[1]);
    RemoveAllNoMatch(name, CloneSuffix, 1);
    TrimOfTrimmed(name);
    ToLowerOfLower(name);
  }

  /** A normalised name holds no upper-case letter and no padding at either end. */
  lemma NormaliseShape(name: string)
    ensures NoUpper(Normalise(name)) && Trimmed(Normalise(name))
  {
    TrimShape(RemoveAll(name, CloneSuffix));
    LowerKeepsTrimmed(Trim(RemoveAll(name, CloneSuffix)));
  }

  /** Lower-casing keeps a trimmed string trimmed. */
  lemma LowerKeepsTrimmed(s: string)
    requires Trimmed(s)
    ensures Trimmed(ToLower(s))
  {
  }

  /** Normalising twice is normalising once. */
  lemma NormaliseIdempotent(name: string)
    ensures Normalise(Normalise(name)) == Normalise(name)
  {
    var n := Normalise(name);
    NormaliseShape(name);
    assert IsUpper(CloneSuffix[1]);
    RemoveAllNoMatch(n, CloneSuffix, 1);
    TrimOfTrimmed(n);
    ToLowerOfLower(n);
  }

  /** The position of the first sep in s. */
  function IndexOf(s: string, sep: char): (i: nat)
    requires sep in s
    ensures i < |s| && s[i] == sep && sep !in s[..i]
  {
    if s[0] == sep then 0 else 1 + IndexOf(s[1..], sep)
  }

  /** String.Split(sep): every field between separators, empty ones included. */
  function Split(s: string, sep: char): (fields: seq<string>)
    ensures |fields| >= 1
    ensures forall i :: 0 <= i < |fields| ==> sep !in fields[i]
    decreases |s|
  {
    if sep !in s then [s]
    else
      var i := IndexOf(s, sep);
      [s[..i]] + Split(s[i + 1..], sep)
  }

  /** String.Join(sep, fields). */
  function Join(fields: seq<string>, sep: char): string
    requires |fields| >= 1
  {
    if |fields| == 1 then fields[0] else fields[0] + [sep] + Join(fields[1..], sep)
  }

  /** Splitting and joining back gives the original string. */
  lemma {:induction false} JoinSplit(s: string, sep: char)
    ensures Join(Split(s, sep), sep) == s
    decreases |s|
  {
    if sep in s {
      var i := IndexOf(s, sep);
      var head, rest := s[..i], Split(s[i + 1..], sep);
      var fields := [head] + rest;
      assert Split(s, sep) == fields;
      assert fields[0] == head && fields[1..] == rest;
      JoinSplit(s[i + 1..], sep);
      assert s == head + [sep] + s[i + 1..];
    }
  }

  /** Joining separator-free fields and splitting gives the fields back. */
  lemma {:induction false} SplitJoin(fields: seq<string>, sep: char)
    requires |fields| >= 1
    requires forall i :: 0 <= i < |fields| ==> sep !in fields[i]
    ensures Split(Join(fields, sep), sep) == fields
  {
    if |fields| > 1 {
      var s := Join(fields, sep);
      var f := fields[0];
      assert s == f + [sep] + Join(fields[1..], sep);
      assert s[|f|] == sep;
      assert s[..|f|] == f;
      assert IndexOf(s, sep) == |f|;
      assert s[|f| + 1..] == Join(fields[1..], sep);
      SplitJoin(fields[1..], sep);
    }
  }

  /** Every character of every field comes from the split string. */
  lemma {:induction false} SplitKeepsCharsOf(s: string, sep: char, k: nat, c: char)
    requires k < |Split(s, sep)| && c in Split(s, sep)[k]
    ensures c in s
    decreases |s|
  {
    if sep in s {
      var i := IndexOf(s, sep);
      if k == 0 {
        assert c in s[..i];
      } else {
        SplitKeepsCharsOf(s[i + 1..], sep, k - 1, c);
        assert c in s[i + 1..];
      }
    }
  }
}
