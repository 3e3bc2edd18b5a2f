/** String operations the bridge is built from: whole-string replacement
    (the `string_replacer` helper), `std::string::find`, and a per-character
    backslash escaper with its inverse, used as the reference that every
    escaping chain of the bridge is proved equal to. */
module Strings {

  datatype Option<+T> = None | Some(value: T)

  /** A string of the source's `std::string` kind: every character stands
      for one byte. */
  predicate IsByteString(s: string)
  {
    forall i :: 0 <= i < |s| ==> s[i] as int < 256
  }

  /** `pat` occurs in `s` starting at index `i`. */
  predicate OccursAt(s: string, pat: string, i: nat)
  {
    i + |pat| <= |s| && s[i..i + |pat|] == pat
  }

  predicate Occurs(s: string, pat: string)
  {
    exists i: nat | i <= |s| :: OccursAt(s, pat, i)
  }

  /** Model of `string_replacer(s, pat, rep)`: scans left to right and
      replaces every occurrence of `pat` that does not overlap an earlier
      replaced one; the inserted text is never rescanned. */
  function ReplaceAll(s: string, pat: string, rep: string): string
    requires pat != []
    decreases |s|
  {
    if |s| < |pat| then s
    else if s[..|pat|] == pat then rep + ReplaceAll(s[|pat|..], pat, rep)
    else [s[0]] + ReplaceAll(s[1..], pat, rep)
  }

  /** Replacing a pattern that does not occur leaves the string unchanged. */
  lemma {:induction false} ReplaceAbsent(s: string, pat: string, rep: string)
    requires pat != [] && !Occurs(s, pat)
    ensures ReplaceAll(s, pat, rep) == s
    decreases |s|
  {
    if |s| >= |pat| {
      assert !OccursAt(s, pat, 0);
      forall i: nat | OccursAt(s[1..], pat, i)
        ensures OccursAt(s, pat, i + 1)
      {
        assert s[1..][i..i + |pat|] == s[i + 1..i + 1 + |pat|];
      }
      ReplaceAbsent(s[1..], pat, rep);
      assert s == [s[0]] + s[1..];
    }
  }

  /** Replacing a single character works character by character. */
  lemma {:induction false} ReplaceCharConcat(a: string, b: string, c: char, rep: string)
    ensures ReplaceAll(a + b, [c], rep) == ReplaceAll(a, [c], rep) + ReplaceAll(b, [c], rep)
    decreases |a|
  {
    if a != [] {
      assert (a + b)[..1] == a[..1];
      assert (a + b)[1..] == a[1..] + b;
      ReplaceCharConcat(a[1..], b, c, rep);
    } else {
      assert a + b == b;
    }
  }

  /** Replacing one character by another keeps the length and changes
      exactly the positions that held the replaced character. */
  lemma {:induction false} ReplaceCharPointwise(s: string, c: char, d: char)
    ensures |ReplaceAll(s, [c], [d])| == |s|
    ensures forall i :: 0 <= i < |s| ==>
      ReplaceAll(s, [c], [d])[i] == if s[i] == c then d else s[i]
    decreases |s|
  {
    if s != [] {
      ReplaceCharPointwise(s[1..], c, d);
    }
  }

  // ---------------------------------------------------------------------
  // Reference escaper

  /** One character, with a backslash in front when it is special. */
  function EscapeChar(x: char, special: set<char>): string
  {
    if x in special then ['\\', x] else [x]
  }

  /** Every character of `special` in `s` gets a backslash in front. */
  function EscapeChars(s: string, special: set<char>): string
    decreases |s|
  {
    if s == [] then [] else EscapeChar(s[0], special) + EscapeChars(s[1..], special)
  }

  /** Drops each backslash that stands before a character of `special`. */
  function UnescapeChars(t: string, special: set<char>): string
    decreases |t|
  {
    if t == [] then []
    else if |t| >= 2 && t[0] == '\\' && t[1] in special then [t[1]] + UnescapeChars(t[2..], special)
    else [t[0]] + UnescapeChars(t[1..], special)
  }

  /** Number of characters of `s` that belong to `special`. */
  function CountIn(s: string, special: set<char>): nat
    decreases |s|
  {
    if s == [] then 0 else (if s[0] in special then 1 else 0) + CountIn(s[1..], special)
  }

  /** A string holding a special character counts at least one. */
  lemma {:induction false} CountInPositive(s: string, special: set<char>, k: nat)
    requires k < |s| && s[k] in special
    ensures CountIn(s, special) > 0
    decreases k
  {
    if k > 0 {
      CountInPositive(s[1..], special, k - 1);
    }
  }

  lemma {:induction false} EscapeConcat(a: string, b: string, special: set<char>)
    ensures EscapeChars(a + b, special) == EscapeChars(a, special) + EscapeChars(b, special)
    decreases |a|
  {
    if a != [] {
      assert (a + b)[1..] == a[1..] + b;
      EscapeConcat(a[1..], b, special);
    } else {
      assert a + b == b;
    }
  }

  /** The escaped string is one character longer per special character. */
  lemma {:induction false} EscapeLength(s: string, special: set<char>)
    ensures |EscapeChars(s, special)| == |s| + CountIn(s, special)
    decreases |s|
  {
    if s != [] {
      EscapeLength(s[1..], special);
    }
  }

  /** A string without special characters is its own escape. */
  lemma {:induction false} EscapeIdentity(s: string, special: set<char>)
    requires forall i :: 0 <= i < |s| ==> s[i] !in special
    ensures EscapeChars(s, special) == s
    decreases |s|
  {
    if s != [] {
      EscapeIdentity(s[1..], special);
      assert s == [s[0]] + s[1..];
    }
  }

  /** An escaped string never starts with a special character unless the
      backslash itself is special. */
  lemma EscapeHead(s: string, special: set<char>)
    requires '\\' !in special && s != []
    ensures EscapeChars(s, special)[0] !in special
  {
  }

  /** Unescaping undoes escaping, for every set of special characters. */
  lemma {:induction false} UnescapeEscape(s: string, special: set<char>)
    ensures UnescapeChars(EscapeChars(s, special), special) == s
    decreases |s|
  {
    if s != [] {
      var x, t := s[0], EscapeChars(s[1..], special);
      UnescapeEscape(s[1..], special);
      if x in special {
        assert EscapeChars(s, special) == ['\\', x] + t;
        assert (['\\', x] + t)[2..] == t;
      } else {
        assert EscapeChars(s, special) == [x] + t;
        assert ([x] + t)[1..] == t;
        if x == '\\' && t != [] {
          EscapeHead(s[1..], special);
        }
      }
      assert s == [s[0]] + s[1..];
    }
  }

  /** Escaping never maps two strings to the same text. */
  lemma EscapeInjective(a: string, b: string, special: set<char>)
    requires EscapeChars(a, special) == EscapeChars(b, special)
    ensures a == b
  {
    UnescapeEscape(a, special);
    UnescapeEscape(b, special);
  }

  /** Every occurrence of a special character `c` other than the backslash
      in an escaped string is directly preceded by a backslash. */
  lemma {:induction false} EscapedBefore(s: string, special: set<char>, c: char)
    requires c in special && c != '\\'
    ensures forall i :: 0 <= i < |EscapeChars(s, special)| && EscapeChars(s, special)[i] == c ==>
      0 < i && EscapeChars(s, special)[i - 1] == '\\'
    decreases |s|
  {
    if s != [] {
      EscapedBefore(s[1..], special, c);
      var h, t := EscapeChar(s[0], special), EscapeChars(s[1..], special);
      assert EscapeChars(s, special) == h + t;
      forall i | 0 <= i < |h + t| && (h + t)[i] == c
        ensures 0 < i && (h + t)[i - 1] == '\\'
      {
        if i >= |h| {
          assert t[i - |h|] == c;
        }
      }
    }
  }

  /** A pattern whose character at index k is `c` and whose character at
      index k - 1 is not a backslash cannot occur in a string where every
      `c` follows a backslash. */
  lemma NoOccurrenceAfterEscape(t: string, pat: string, c: char, k: nat)
    requires 0 < k < |pat| && pat[k] == c && pat[k - 1] != '\\'
    requires forall i :: 0 <= i < |t| && t[i] == c ==> 0 < i && t[i - 1] == '\\'
    ensures !Occurs(t, pat)
  {
  }

  /** Replacing `c` by backslash-`c` in one escaped character escapes `c`
      too. */
  lemma ReplaceInEscapedChar(x: char, special: set<char>, c: char)
    requires c !in special
    requires c == '\\' ==> special == {}
    ensures ReplaceAll(EscapeChar(x, special), [c], ['\\', c]) == EscapeChar(x, special + {c})
  {
    var h := EscapeChar(x, special);
    if x in special {
      assert ReplaceAll(h, [c], ['\\', c]) == ['\\'] + ReplaceAll([x], [c], ['\\', c]) by {
        assert h[..1] != [c] && h[1..] == [x];
      }
      assert ReplaceAll([x], [c], ['\\', c]) == [x] by {
        assert [x][..1] != [c] && [x][1..] == [];
      }
    } else if x == c {
      assert h[..1] == [c] && h[1..] == [];
    } else {
      assert h[..1] != [c] && h[1..] == [];
    }
  }

  /** Escaping one more character by replacing `c` with backslash-`c`
      extends the escaped set by `c`; the backslash must be escaped first,
      before any other character. */
  lemma {:induction false} ReplaceExtendsEscape(s: string, special: set<char>, c: char)
    requires c !in special
    requires c == '\\' ==> special == {}
    ensures ReplaceAll(EscapeChars(s, special), [c], ['\\', c]) == EscapeChars(s, special + {c})
    decreases |s|
  {
    if s != [] {
      var h, t := EscapeChar(s[0], special), EscapeChars(s[1..], special);
      ReplaceCharConcat(h, t, c, ['\\', c]);
      ReplaceExtendsEscape(s[1..], special, c);
      ReplaceInEscapedChar(s[0], special, c);
    }
  }

  /** The empty set of special characters escapes nothing. */
  lemma {:induction false} EscapeNothing(s: string)
    ensures EscapeChars(s, {}) == s
    decreases |s|
  {
    if s != [] {
      EscapeNothing(s[1..]);
      assert s == [s[0]] + s[1..];
    }
  }

  // ---------------------------------------------------------------------
  // std::string::find

  /** First index at or after `i` where `pat` occurs in `s`. */
  function FindFrom(s: string, pat: string, i: nat): (r: Option<nat>)
    ensures r.Some? ==> i <= r.value && OccursAt(s, pat, r.value)
    ensures r.Some? ==> forall j :: i <= j < r.value ==> !OccursAt(s, pat, j)
    ensures r.None? ==> forall j: nat :: i <= j ==> !OccursAt(s, pat, j)
    decreases |s| - i
  {
    if i + |pat| > |s| then None
    else if OccursAt(s, pat, i) then Some(i)
    else FindFrom(s, pat, i + 1)
  }

  /** Model of `s.find(pat)`: the first occurrence, or none (`npos`). */
  function Find(s: string, pat: string): (r: Option<nat>)
    ensures r.Some? ==> OccursAt(s, pat, r.value) && forall j :: 0 <= j < r.value ==> !OccursAt(s, pat, j)
    ensures r.None? <==> !Occurs(s, pat)
  {
    FindFrom(s, pat, 0)
  }
}
