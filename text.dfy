/** The three java.lang.String operations the book import relies on: trim(),
    toLowerCase() and equalsIgnoreCase(). trim() is modelled exactly; the case
    mappings are modelled on ASCII letters only. */
module Text {

  /** String.trim() removes every leading and trailing char whose code is at most U+0020. */
  predicate IsTrimmable(c: char) {
    c <= ' '
  }

  /** The suffix of `s` left after dropping its leading trimmable chars. */
  function TrimStart(s: string): (r: string)
    ensures |r| <= |s| && r == s[|s| - |r|..]
    ensures r == [] || !IsTrimmable(r[0])
    ensures forall i :: 0 <= i < |s| - |r| ==> IsTrimmable(s[i])
  {
    if |s| > 0 && IsTrimmable(s[0]) then TrimStart(s[1..]) else s
  }

  /** The prefix of `s` left after dropping its trailing trimmable chars. */
  function TrimEnd(s: string): (r: string)
    ensures |r| <= |s| && r == s[..|r|]
    ensures r == [] || !IsTrimmable(r[|r| - 1])
    ensures forall i :: |r| <= i < |s| ==> IsTrimmable(s[i])
  {
    if |s| > 0 && IsTrimmable(s[|s| - 1]) then TrimEnd(s[..|s| - 1]) else s
  }

  /** String.trim(): neither starts nor ends with a trimmable char, and is empty
      exactly when every char of `s` is trimmable. */
  function Trim(s: string): (r: string)
    ensures r == [] || (!IsTrimmable(r[0]) && !IsTrimmable(r[|r| - 1]))
    ensures r == [] <==> forall i :: 0 <= i < |s| ==> IsTrimmable(s[i])
  {
    TrimEnd(TrimStart(s))
  }

  /** Trim(s) is the run of `s` starting after its leading trimmable chars:
      nothing inside is dropped, only the two ends. */
  lemma TrimIsInnerSlice(s: string)
    ensures |s| - |TrimStart(s)| + |Trim(s)| <= |s|
    ensures forall i :: 0 <= i < |Trim(s)| ==> Trim(s)[i] == s[|s| - |TrimStart(s)| + i]
  {
    var u := TrimStart(s);
    var t := TrimEnd(u);
    assert Trim(s) == t;
    InnerSlice(s, u, t);
  }

  /** Every char after that slice is trimmable. */
  lemma TrimDropsOnlyTrailingTrimmable(s: string)
    ensures forall i :: |s| - |TrimStart(s)| + |Trim(s)| <= i < |s| ==> IsTrimmable(s[i])
  {
    var u := TrimStart(s);
    InnerSlice(s, u, TrimEnd(u));
  }

  /** `t`, a prefix of the suffix `u` of `s`, is the slice of `s` it sits at. */
  lemma InnerSlice(s: string, u: string, t: string)
    requires |u| <= |s| && u == s[|s| - |u|..]
    requires |t| <= |u| && t == u[..|t|]
    requires forall i :: |t| <= i < |u| ==> IsTrimmable(u[i])
    ensures t == s[|s| - |u|..|s| - |u| + |t|]
    ensures forall i :: |s| - |u| + |t| <= i < |s| ==> IsTrimmable(s[i])
  {
    var lead := |s| - |u|;
    forall i | lead + |t| <= i < |s| ensures IsTrimmable(s[i]) {
      assert s[i] == u[i - lead];
    }
  }

  /** Trimming twice is trimming once. */
  lemma TrimIdempotent(s: string)
    ensures Trim(Trim(s)) == Trim(s)
  {
    var t := Trim(s);
    if t != [] {
      assert TrimStart(t) == t;
      assert TrimEnd(t) == t;
    }
  }

  /** A string that neither starts nor ends with a trimmable char is its own trim. */
  lemma TrimOfTrimmed(s: string)
    requires s == [] || (!IsTrimmable(s[0]) && !IsTrimmable(s[|s| - 1]))
    ensures Trim(s) == s
  {
    if s != [] {
      assert TrimStart(s) == s;
    }
  }

  function LowerChar(c: char): char {
    if 'A' <= c <= 'Z' then (c as int + 32) as char else c
  }

  function UpperChar(c: char): char {
    if 'a' <= c <= 'z' then (c as int - 32) as char else c
  }

  /** String.toLowerCase() on ASCII letters. */
  function ToLower(s: string): string {
    seq(|s|, i requires 0 <= i < |s| => LowerChar(s[i]))
  }

  /** Character.equals ignoring case, as String.equalsIgnoreCase compares each pair:
      equal, equal upper-cased, or equal lower-cased. */
  predicate CharsEqualIgnoreCase(a: char, b: char) {
    a == b || UpperChar(a) == UpperChar(b) || LowerChar(a) == LowerChar(b)
  }

  /** String.equalsIgnoreCase: same length and every pair of chars equal ignoring case. */
  predicate EqualsIgnoreCase(a: string, b: string) {
    |a| == |b| && forall i :: 0 <= i < |a| ==> CharsEqualIgnoreCase(a[i], b[i])
  }

  lemma CharsEqualIgnoreCaseIffSameLower(a: char, b: char)
    ensures CharsEqualIgnoreCase(a, b) <==> LowerChar(a) == LowerChar(b)
  {
  }

  /** equalsIgnoreCase agrees with comparing the lower-cased strings, so it is an
      equivalence relation on strings. */
  lemma EqualsIgnoreCaseIffSameLower(a: string, b: string)
    ensures EqualsIgnoreCase(a, b) <==> ToLower(a) == ToLower(b)
  {
    if EqualsIgnoreCase(a, b) {
      forall i | 0 <= i < |a| ensures ToLower(a)[i] == ToLower(b)[i] {
        CharsEqualIgnoreCaseIffSameLower(a[i], b[i]);
      }
    }
    if ToLower(a) == ToLower(b) {
      forall i | 0 <= i < |a| ensures CharsEqualIgnoreCase(a[i], b[i]) {
        assert ToLower(a)[i] == ToLower(b)[i];
        CharsEqualIgnoreCaseIffSameLower(a[i], b[i]);
      }
    }
  }

  /** A string with no upper-case ASCII letter is its own lower-case form. */
  lemma ToLowerOfLower(s: string)
    requires forall i :: 0 <= i < |s| ==> !('A' <= s[i] <= 'Z')
    ensures ToLower(s) == s
  {
  }
}
