/** The string operations the listing parser uses, with Python's semantics:
    `str.strip()`, `str.split(sep)` and `dict(zip(keys, values))`. */
module Text {

  /** The characters `str.isspace()` accepts, which `str.strip()` removes. */
  predicate IsSpace(c: char) {
    || ('\t' <= c <= '\r')
    || ('\U{1c}' <= c <= '\U{1f}')
    || c == ' ' || c == '\U{85}' || c == '\U{a0}' || c == '\U{1680}'
    || ('\U{2000}' <= c <= '\U{200a}')
    || c == '\U{2028}' || c == '\U{2029}' || c == '\U{202f}' || c == '\U{205f}' || c == '\U{3000}'
  }

  /** Every character of `s` is whitespace. */
  predicate AllSpace(s: string) {
    forall i :: 0 <= i < |s| ==> IsSpace(s[i])
  }

  /** `s.lstrip()`: the suffix of `s` left after its leading whitespace. */
  function StripStart(s: string): (r: string)
    ensures |r| <= |s| && r == s[|s| - |r|..]
    ensures AllSpace(s[..|s| - |r|])
    ensures r == [] || !IsSpace(r[0])
  {
    if |s| > 0 && IsSpace(s[0]) then
      var r := StripStart(s[1..]);
      assert s[..|s| - |r|] == [s[0]] + s[1..][..|s| - 1 - |r|];
      r
    else s
  }

  /** `s.rstrip()`: the prefix of `s` left after its trailing whitespace. */
  function StripEnd(s: string): (r: string)
    ensures |r| <= |s| && r == s[..|r|]
    ensures AllSpace(s[|r|..])
    ensures r == [] || !IsSpace(r[|r| - 1])
  {
    if |s| > 0 && IsSpace(s[|s| - 1]) then
      var r := StripEnd(s[..|s| - 1]);
      assert s[|r|..] == s[..|s| - 1][|r|..] + [s[|s| - 1]];
      r
    else s
  }

  /** `s.strip()`: an infix of `s` that neither starts nor ends with whitespace,
      everything cut off on either side being whitespace. */
  function Strip(s: string): (r: string)
    ensures r == [] || (!IsSpace(r[0]) && !IsSpace(r[|r| - 1]))
    ensures |r| <= |s|
    ensures exists lead :: 0 <= lead && lead + |r| <= |s| && s == s[..lead] + r + s[lead + |r|..]
              && AllSpace(s[..lead]) && AllSpace(s[lead + |r|..])
  {
    var t := StripStart(s);
    var r := StripEnd(t);
    StripPieces(s, t, r);
    r
  }

  lemma StripPieces(s: string, t: string, r: string)
    requires |t| <= |s| && t == s[|s| - |t|..] && AllSpace(s[..|s| - |t|])
    requires |r| <= |t| && r == t[..|r|] && AllSpace(t[|r|..])
    ensures var lead := |s| - |t|;
      s == s[..lead] + r + s[lead + |r|..] && AllSpace(s[..lead]) && AllSpace(s[lead + |r|..])
  {
    var lead := |s| - |t|;
    assert s[lead..][..|r|] == s[lead..lead + |r|];
    assert t[|r|..] == s[lead + |r|..];
    assert s == s[..lead] + s[lead..lead + |r|] + s[lead + |r|..];
  }

  /** `s.split(sep)`: the pieces between occurrences of `sep`; never empty,
      `"".split(sep) == [""]`, and adjacent separators give empty pieces. */
  function Split(s: string, sep: char): (parts: seq<string>)
    ensures |parts| >= 1
    ensures forall i :: 0 <= i < |parts| ==> sep !in parts[i]
  {
    if |s| == 0 then [""]
    else if s[0] == sep then [""] + Split(s[1..], sep)
    else
      var rest := Split(s[1..], sep);
      [[s[0]] + rest[0]] + rest[1..]
  }

  /** `sep.join(parts)`, the inverse of `Split`. */
  function Join(parts: seq<string>, sep: char): string
    requires |parts| >= 1
  {
    if |parts| == 1 then parts[0] else parts[0] + [sep] + Join(parts[1..], sep)
  }

  /** Joining the pieces of a split gives back the string. */
  lemma {:induction false} JoinSplit(s: string, sep: char)
    ensures Join(Split(s, sep), sep) == s
  {
    if |s| == 0 {
    } else if s[0] == sep {
      JoinSplit(s[1..], sep);
      assert Split(s, sep)[1..] == Split(s[1..], sep);
    } else {
      JoinSplit(s[1..], sep);
      var rest := Split(s[1..], sep);
      if |rest| == 1 {
        assert Split(s, sep) == [[s[0]] + rest[0]];
      } else {
        assert Split(s, sep)[1..] == rest[1..];
        assert rest[0] + [sep] + Join(rest[1..], sep) == s[1..];
      }
    }
  }

  lemma {:induction false} SplitSeparatorFree(a: string, sep: char)
    requires sep !in a
    ensures Split(a, sep) == [a]
  {
    if |a| > 0 {
      SplitSeparatorFree(a[1..], sep);
      assert [a[0]] + a[1..] == a;
    }
  }

  lemma {:induction false} SplitAfterPiece(a: string, b: string, sep: char)
    requires sep !in a
    ensures Split(a + [sep] + b, sep) == [a] + Split(b, sep)
  {
    var s := a + [sep] + b;
    if |a| == 0 {
      assert s[1..] == b;
    } else {
      assert s[1..] == a[1..] + [sep] + b;
      SplitAfterPiece(a[1..], b, sep);
      assert [a[0]] + a[1..] == a;
    }
  }

  /** Splitting the join of separator-free pieces gives back the pieces. */
  lemma {:induction false} SplitJoin(parts: seq<string>, sep: char)
    requires |parts| >= 1
    requires forall i :: 0 <= i < |parts| ==> sep !in parts[i]
    ensures Split(Join(parts, sep), sep) == parts
  {
    if |parts| == 1 {
      SplitSeparatorFree(parts[0], sep);
    } else {
      SplitJoin(parts[1..], sep);
      SplitAfterPiece(parts[0], Join(parts[1..], sep), sep);
      assert [parts[0]] + parts[1..] == parts;
    }
  }

  /** There is one more piece than there are separators. */
  lemma {:induction false} SplitCount(s: string, sep: char)
    ensures |Split(s, sep)| == multiset(s)[sep] + 1
  {
    if |s| > 0 {
      SplitCount(s[1..], sep);
      assert s == [s[0]] + s[1..];
      assert multiset(s) == multiset([s[0]]) + multiset(s[1..]);
    }
  }

  /** A parsed row: `dict(zip(headers, values))`. */
  type Record = map<string, string>

  /** `dict(zip(keys, vals))`: pairs up the two lists as far as the shorter goes;
      a repeated key keeps the value of its last occurrence. */
  function Zip(keys: seq<string>, vals: seq<string>): (m: Record)
    ensures forall i :: 0 <= i < |keys| && i < |vals| ==> keys[i] in m
    ensures forall k :: k in m ==> exists i :: 0 <= i < |keys| && i < |vals| && keys[i] == k
  {
    if |keys| == 0 || |vals| == 0 then map[]
    else
      var rest := Zip(keys[1..], vals[1..]);
      assert forall k :: k in rest ==> exists i :: 0 <= i < |keys| && i < |vals| && keys[i] == k by {
        forall k | k in rest ensures exists i :: 0 <= i < |keys| && i < |vals| && keys[i] == k {
          var j :| 0 <= j < |keys| - 1 && j < |vals| - 1 && keys[1..][j] == k;
          assert keys[j + 1] == k;
        }
      }
      assert forall i :: 1 <= i < |keys| && i < |vals| ==> keys[i] in rest by {
        forall i | 1 <= i < |keys| && i < |vals| ensures keys[i] in rest {
          assert keys[1..][i - 1] == keys[i];
        }
      }
      map[keys[0] := vals[0]] + rest
  }

  /** The value under key `keys[i]` is `vals[i]` when no later pair repeats that key. */
  lemma {:induction false} ZipAt(keys: seq<string>, vals: seq<string>, i: nat)
    requires i < |keys| && i < |vals|
    requires forall j :: i < j < |keys| && j < |vals| ==> keys[j] != keys[i]
    ensures keys[i] in Zip(keys, vals) && Zip(keys, vals)[keys[i]] == vals[i]
  {
    if i > 0 {
      forall j | i - 1 < j < |keys| - 1 && j < |vals| - 1 ensures keys[1..][j] != keys[1..][i - 1] {
        assert keys[j + 1] != keys[i];
      }
      ZipAt(keys[1..], vals[1..], i - 1);
    }
  }
}
