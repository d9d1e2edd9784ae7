/**
 * The string and path helpers of Go's standard library that main.go relies on:
 * strings.ToLower, strings.HasSuffix, strings.Contains and filepath.Ext.
 * Strings are sequences of characters; ToLower is modelled on ASCII letters.
 */
module Text {

  /** strings.ToLower on one character: 'A'..'Z' become 'a'..'z', all else is kept. */
  function LowerChar(c: char): char {
    if 'A' <= c <= 'Z' then (c as int + 32) as char else c
  }

  /** strings.ToLower. */
  function Lower(s: string): string {
    seq(|s|, i requires 0 <= i < |s| => LowerChar(s[i]))
  }

  /** strings.HasSuffix. */
  predicate HasSuffix(s: string, suffix: string) {
    |suffix| <= |s| && s[|s| - |suffix|..] == suffix
  }

  /** strings.HasPrefix. */
  predicate HasPrefix(s: string, prefix: string) {
    |prefix| <= |s| && s[..|prefix|] == prefix
  }

  /** strings.Contains. */
  predicate Contains(s: string, sub: string) {
    exists i :: 0 <= i <= |s| && HasPrefix(s[i..], sub)
  }

  /**
   * Lower keeps the length, leaves no upper-case ASCII letter, and changes a
   * character only by mapping 'A'..'Z' to 'a'..'z'.
   */
  lemma LowerIsAsciiLowerCase(s: string)
    ensures |Lower(s)| == |s|
    ensures forall i :: 0 <= i < |s| ==> !('A' <= Lower(s)[i] <= 'Z')
    ensures forall i :: 0 <= i < |s| ==>
      Lower(s)[i] == s[i] || ('A' <= s[i] <= 'Z' && Lower(s)[i] as int == s[i] as int + 32)
  {
  }

  /** HasSuffix holds exactly when the string is some prefix followed by the suffix. */
  lemma HasSuffixIsConcat(s: string, suffix: string)
    ensures HasSuffix(s, suffix) <==> exists p :: s == p + suffix
  {
    if HasSuffix(s, suffix) {
      assert s == s[..|s| - |suffix|] + suffix;
    }
    if exists p :: s == p + suffix {
      var p :| s == p + suffix;
      assert s[|p|..] == suffix;
    }
  }

  /** Contains holds exactly when sub occurs in s between some prefix and some rest. */
  lemma ContainsIsInfix(s: string, sub: string)
    ensures Contains(s, sub) <==> exists p, q :: s == p + sub + q
  {
    if Contains(s, sub) {
      var i :| 0 <= i <= |s| && HasPrefix(s[i..], sub);
      assert s == s[..i] + sub + s[i + |sub|..];
    }
    if exists p, q :: s == p + sub + q {
      var p, q :| s == p + sub + q;
      assert s[|p|..][..|sub|] == sub;
      assert HasPrefix(s[|p|..], sub);
    }
  }

  /** Lowering a string that is already lower-case changes nothing. */
  lemma LowerIdempotent(s: string)
    ensures Lower(Lower(s)) == Lower(s)
  {
  }

  /**
   * filepath.Ext, scanning back from position i: the suffix from the last '.'
   * of the final path element, or "" when that element has no '.'.
   */
  function ExtFrom(path: string, i: nat): (r: string)
    requires i <= |path|
    requires forall k :: i <= k < |path| ==> path[k] != '.' && path[k] != '/'
    ensures r == "" || (HasSuffix(path, r) && r[0] == '.')
    ensures forall k :: 1 <= k < |r| ==> r[k] != '.' && r[k] != '/'
    // Empty exactly when every '.' before position i has a '/' after it.
    ensures r == "" <==> forall k :: 0 <= k < i && path[k] == '.' ==> exists m :: k < m < i && path[m] == '/'
    decreases i
  {
    if i == 0 || path[i - 1] == '/' then ""
    else if path[i - 1] == '.' then path[i - 1..]
    else
      var r := ExtFrom(path, i - 1);
      assert forall k :: 0 <= k < i - 1 && path[k] == '.' ==>
        ((exists m :: k < m < i && path[m] == '/') <==> (exists m :: k < m < i - 1 && path[m] == '/'));
      r
  }

  /** filepath.Ext (the path separator is '/'). */
  function Ext(path: string): string {
    ExtFrom(path, |path|)
  }

  /** Scanning back over characters that are neither '.' nor '/' does not change the extension. */
  lemma {:induction false} ExtFromSkips(path: string, i: nat, j: nat)
    requires j <= i <= |path|
    requires forall k :: i <= k < |path| ==> path[k] != '.' && path[k] != '/'
    requires forall k :: j <= k < i ==> path[k] != '.' && path[k] != '/'
    ensures ExtFrom(path, i) == ExtFrom(path, j)
    decreases i
  {
    if i > j {
      ExtFromSkips(path, i - 1, j);
    }
  }

  /**
   * filepath.Ext(name) == ext holds exactly when name ends with ext, for an
   * extension made of a dot and characters other than '.' and '/' (".epub").
   */
  lemma ExtIsSuffix(name: string, ext: string)
    requires |ext| > 0 && ext[0] == '.'
    requires forall k :: 1 <= k < |ext| ==> ext[k] != '.' && ext[k] != '/'
    ensures Ext(name) == ext <==> HasSuffix(name, ext)
  {
    if HasSuffix(name, ext) {
      var n := |name|;
      var j := n - |ext| + 1;
      assert forall k :: j <= k < n ==> name[k] == ext[k - (n - |ext|)];
      ExtFromSkips(name, n, j);
      assert name[j - 1] == '.';
    }
  }
}
