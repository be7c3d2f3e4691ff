/** The two Python string operations the ingestion logic depends on:
    `str.strip()` with no argument, and `"".join(parts)`. Strings are
    sequences of Unicode scalar values, so `len(s)` is `|s|`. */
module PyText {

  /** The characters Python's `str.isspace()` accepts, which is the set
      `str.strip()` removes when called without an argument. */
  predicate IsWs(c: char)
  {
    || c == ' '
    || ('\t' <= c <= '\r')                // \t \n \x0b \x0c \r
    || ('\U{1C}' <= c <= '\U{1F}')        // file, group, record, unit separators
    || c == '\U{85}' || c == '\U{A0}' || c == '\U{1680}'
    || ('\U{2000}' <= c <= '\U{200A}')
    || c == '\U{2028}' || c == '\U{2029}' || c == '\U{202F}'
    || c == '\U{205F}' || c == '\U{3000}'
  }

  predicate AllWs(s: string)
  {
    forall i :: 0 <= i < |s| ==> IsWs(s[i])
  }

  /** `s.lstrip()`: the longest suffix of `s` that does not start with whitespace. */
  function TrimStart(s: string): (r: string)
    ensures |r| <= |s| && r == s[|s| - |r|..]
    ensures forall i :: 0 <= i < |s| - |r| ==> IsWs(s[i])
    ensures r == [] || !IsWs(r[0])
  {
    if s != [] && IsWs(s[0]) then TrimStart(s[1..]) else s
  }

  /** `s.rstrip()`: the longest prefix of `s` that does not end with whitespace. */
  function TrimEnd(s: string): (r: string)
    ensures |r| <= |s| && r == s[..|r|]
    ensures forall i :: |r| <= i < |s| ==> IsWs(s[i])
    ensures r == [] || !IsWs(r[|r| - 1])
  {
    if s != [] && IsWs(s[|s| - 1]) then TrimEnd(s[..|s| - 1]) else s
  }

  /** `s.strip()`: what is left once leading and then trailing whitespace
      is removed; when anything is left it starts and ends with a
      non-whitespace character. */
  function Strip(s: string): (r: string)
    ensures |r| <= |s|
    ensures r != [] ==> !IsWs(r[0]) && !IsWs(r[|r| - 1])
  {
    TrimEnd(TrimStart(s))
  }

  /** Stripping leaves nothing exactly when the string is all whitespace. */
  lemma StripEmptyIff(s: string)
    ensures Strip(s) == [] <==> AllWs(s)
  {
    var t := TrimStart(s);
    var lead := |s| - |t|;
    if Strip(s) == [] {
      assert t == [];
    } else {
      assert Strip(s)[0] == t[0] == s[lead];
    }
  }

  /** `s.strip()` is a contiguous piece of `s`, starting where
      `s.lstrip()` starts. */
  lemma StripIsSlice(s: string)
    ensures var a := |s| - |TrimStart(s)|;
            a + |Strip(s)| <= |s| && Strip(s) == s[a..a + |Strip(s)|]
  {
    var t := TrimStart(s);
    var a := |s| - |t|;
    assert t == s[a..] && Strip(s) == t[..|Strip(s)|];
  }

  /** What `s.strip()` drops, before and after the piece it keeps, is
      whitespace. */
  lemma StripDropsWhitespace(s: string)
    ensures var a := |s| - |TrimStart(s)|;
            && a + |Strip(s)| <= |s|
            && (forall i :: 0 <= i < a ==> IsWs(s[i]))
            && (forall i :: a + |Strip(s)| <= i < |s| ==> IsWs(s[i]))
  {
    var t := TrimStart(s);
    TailWhitespace(s, |s| - |t|, t, |TrimEnd(t)|);
  }

  /** Whitespace at the end of a suffix `t` of `s` is whitespace at the
      same place at the end of `s`. */
  lemma TailWhitespace(s: string, a: nat, t: string, n: nat)
    requires a <= |s| && t == s[a..] && n <= |t|
    requires forall j :: n <= j < |t| ==> IsWs(t[j])
    ensures forall i :: a + n <= i < |s| ==> IsWs(s[i])
  {
    forall i | a + n <= i < |s|
      ensures IsWs(s[i])
    {
      assert s[i] == t[i - a];
    }
  }

  /** A string with no whitespace at all is its own strip. */
  lemma {:induction false} StripNoWhitespace(s: string)
    requires forall i :: 0 <= i < |s| ==> !IsWs(s[i])
    ensures Strip(s) == s
  {
    assert TrimStart(s) == s by {
      if s != [] { assert !IsWs(s[0]); }
    }
    assert TrimEnd(s) == s by {
      if s != [] { assert !IsWs(s[|s| - 1]); }
    }
  }

  /** `"".join(parts)`: the parts glued together in order, with no separator. */
  function Join(parts: seq<string>): string
  {
    if parts == [] then "" else Join(parts[..|parts| - 1]) + parts[|parts| - 1]
  }

  /** The joined string is empty exactly when every part is. */
  lemma {:induction false} JoinEmptyIff(parts: seq<string>)
    ensures Join(parts) == [] <==> forall i :: 0 <= i < |parts| ==> parts[i] == []
  {
    if parts != [] {
      var init := parts[..|parts| - 1];
      JoinEmptyIff(init);
      assert forall i :: 0 <= i < |init| ==> init[i] == parts[i];
    }
  }

  /** Joining distributes over concatenation of the part lists. */
  lemma {:induction false} JoinAppend(p: seq<string>, q: seq<string>)
    ensures Join(p + q) == Join(p) + Join(q)
    decreases |q|
  {
    if q == [] {
      assert p + q == p;
    } else {
      var q' := q[..|q| - 1];
      assert (p + q)[..|p + q| - 1] == p + q';
      JoinAppend(p, q');
    }
  }

  /** Part `k` sits in the joined string right after the parts before it:
      nothing is skipped, reordered or separated. */
  lemma JoinPartAt(parts: seq<string>, k: nat)
    requires k < |parts|
    ensures var off := |Join(parts[..k])|;
            off + |parts[k]| <= |Join(parts)| &&
            Join(parts)[off..off + |parts[k]|] == parts[k]
  {
    assert parts == parts[..k] + [parts[k]] + parts[k + 1..];
    JoinAppend(parts[..k] + [parts[k]], parts[k + 1..]);
    JoinAppend(parts[..k], [parts[k]]);
    assert Join([parts[k]]) == parts[k] by {
      assert [parts[k]][..0] == [];
    }
  }
}
