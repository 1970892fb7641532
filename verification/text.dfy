/** String helpers with JavaScript's meaning: `split` on a one-character
    separator, `join`, and `trim` with the ECMAScript notion of white space. */
module Text {

  /** True when `s` contains no occurrence of `c`. */
  predicate Free(s: string, c: char)
  {
    forall i :: 0 <= i < |s| ==> s[i] != c
  }

  /** `s.split(sep)` for a one-character separator: the pieces between the
      separators, in order; there is always one piece more than separators. */
  function Split(s: string, sep: char): (parts: seq<string>)
    ensures |parts| >= 1
    ensures forall k :: 0 <= k < |parts| ==> Free(parts[k], sep)
    decreases |s|
  {
    if s == [] then [""]
    else if s[0] == sep then [""] + Split(s[1..], sep)
    else
      var rest := Split(s[1..], sep);
      [[s[0]] + rest[0]] + rest[1..]
  }

  /** `parts.join(sep)`. */
  function Join(parts: seq<string>, sep: string): string
  {
    if |parts| == 0 then ""
    else if |parts| == 1 then parts[0]
    else parts[0] + sep + Join(parts[1..], sep)
  }

  /** Splitting at one separator splits the two sides independently. */
  lemma {:induction false} SplitConcat(a: string, b: string, sep: char)
    ensures Split(a + [sep] + b, sep) == Split(a, sep) + Split(b, sep)
    decreases |a|
  {
    if a == [] {
      assert a + [sep] + b == [sep] + b;
    } else {
      assert (a + [sep] + b)[1..] == a[1..] + [sep] + b;
      SplitConcat(a[1..], b, sep);
    }
  }

  /** A string without the separator is a single piece. */
  lemma {:induction false} SplitFree(s: string, sep: char)
    requires Free(s, sep)
    ensures Split(s, sep) == [s]
    decreases |s|
  {
    if s != [] {
      SplitFree(s[1..], sep);
      assert [s[0]] + s[1..] == s;
    }
  }

  /** Joining the pieces of a split gives back the original string. */
  lemma {:induction false} JoinSplit(s: string, sep: char)
    ensures Join(Split(s, sep), [sep]) == s
    decreases |s|
  {
    if s != [] {
      JoinSplit(s[1..], sep);
      var rest := Split(s[1..], sep);
      assert s == [s[0]] + s[1..];
      if s[0] == sep {
        var parts := [""] + rest;
        assert Split(s, sep) == parts && parts[1..] == rest;
        assert Join(parts, [sep]) == "" + [sep] + Join(rest, [sep]);
      } else if |rest| == 1 {
        assert Split(s, sep) == [[s[0]] + rest[0]];
      } else {
        var parts := [[s[0]] + rest[0]] + rest[1..];
        assert Split(s, sep) == parts && parts[1..] == rest[1..];
        assert Join(rest, [sep]) == rest[0] + [sep] + Join(rest[1..], [sep]);
        assert Join(parts, [sep]) == ([s[0]] + rest[0]) + [sep] + Join(rest[1..], [sep]);
      }
    }
  }

  /** Splitting a join gives back the pieces, when no piece holds the separator. */
  lemma {:induction false} SplitJoin(parts: seq<string>, sep: char)
    requires |parts| >= 1
    requires forall k :: 0 <= k < |parts| ==> Free(parts[k], sep)
    ensures Split(Join(parts, [sep]), sep) == parts
    decreases |parts|
  {
    SplitFree(parts[0], sep);
    if |parts| > 1 {
      SplitJoin(parts[1..], sep);
      SplitConcat(parts[0], Join(parts[1..], [sep]), sep);
      assert [parts[0]] + parts[1..] == parts;
    }
  }

  /** The characters `String.prototype.trim` removes: ECMAScript WhiteSpace
      (tab, vertical tab, form feed, the byte order mark and the Unicode
      space separators) and LineTerminator. */
  predicate IsJsWhitespace(c: char)
  {
    || c == '\t' || c == '\U{000B}' || c == '\U{000C}' || c == ' '
    || c == '\U{00A0}' || c == '\U{1680}' || ('\U{2000}' <= c <= '\U{200A}')
    || c == '\U{202F}' || c == '\U{205F}' || c == '\U{3000}' || c == '\U{FEFF}'
    || c == '\n' || c == '\r' || c == '\U{2028}' || c == '\U{2029}'
  }

  /** The suffix of `s` left after dropping leading white space. */
  function TrimStart(s: string): (r: string)
    ensures |r| <= |s| && r == s[|s| - |r|..]
    ensures r == [] || !IsJsWhitespace(r[0])
    ensures forall i :: 0 <= i < |s| - |r| ==> IsJsWhitespace(s[i])
  {
    if s != [] && IsJsWhitespace(s[0]) then TrimStart(s[1..]) else s
  }

  /** The prefix of `s` left after dropping trailing white space. */
  function TrimEnd(s: string): (r: string)
    ensures |r| <= |s| && r == s[..|r|]
    ensures r == [] || !IsJsWhitespace(r[|r| - 1])
    ensures forall i :: |r| <= i < |s| ==> IsJsWhitespace(s[i])
  {
    if s != [] && IsJsWhitespace(s[|s| - 1]) then TrimEnd(s[..|s| - 1]) else s
  }

  /** A prefix of a suffix of `s` holds only characters of `s`. */
  lemma TrimmedFrom(s: string, t: string, r: string)
    requires |t| <= |s| && t == s[|s| - |t|..]
    requires |r| <= |t| && r == t[..|r|]
    ensures forall i :: 0 <= i < |r| ==> r[i] in s
  {
    forall i | 0 <= i < |r| ensures r[i] in s {
      assert r[i] == s[|s| - |t| + i];
    }
  }

  /** `s.trim()`: the longest infix of `s` that neither starts nor ends with
      white space; every character it keeps comes from `s`. */
  function Trim(s: string): (r: string)
    ensures |r| <= |s| && forall i :: 0 <= i < |r| ==> r[i] in s
    ensures r == [] || (!IsJsWhitespace(r[0]) && !IsJsWhitespace(r[|r| - 1]))
  {
    var t := TrimStart(s);
    var r := TrimEnd(t);
    TrimmedFrom(s, t, r);
    r
  }

  /** A prefix `r` of a suffix `t` of `s` sits in `s` at `|s| - |t|`;
      when what was cut off on either side satisfies `p`, everything in `s`
      outside that infix does. */
  lemma PrefixOfSuffix(s: string, t: string, r: string, p: char -> bool)
    requires |t| <= |s| && t == s[|s| - |t|..]
    requires |r| <= |t| && r == t[..|r|]
    requires forall i :: 0 <= i < |s| - |t| ==> p(s[i])
    requires forall i :: |r| <= i < |t| ==> p(t[i])
    ensures r == s[|s| - |t|..|s| - |t| + |r|]
    ensures forall i :: |s| - |t| + |r| <= i < |s| ==> p(s[i])
  {
    var a := |s| - |t|;
    forall i | a + |r| <= i < |s| ensures p(s[i]) {
      assert s[i] == t[i - a];
    }
  }

  /** `Trim(s)` is the infix of `s` starting at `a`: everything before it
      and everything after it is white space. */
  lemma TrimIsInfix(s: string) returns (a: nat)
    ensures a + |Trim(s)| <= |s| && Trim(s) == s[a..a + |Trim(s)|]
    ensures forall i :: 0 <= i < a ==> IsJsWhitespace(s[i])
    ensures forall i :: a + |Trim(s)| <= i < |s| ==> IsJsWhitespace(s[i])
  {
    var t := TrimStart(s);
    var r := TrimEnd(t);
    a := |s| - |t|;
    PrefixOfSuffix(s, t, r, IsJsWhitespace);
  }

  /** Every string of `parts`, with a space in front. */
  function Spaced(parts: seq<string>): (r: seq<string>)
    ensures |r| == |parts|
    ensures forall i :: 0 <= i < |r| ==> r[i] == " " + parts[i]
  {
    seq(|parts|, i requires 0 <= i < |parts| => " " + parts[i])
  }

  lemma {:induction false} JoinSpaced(parts: seq<string>)
    requires |parts| >= 1
    ensures Join(Spaced(parts), ",") == " " + Join(parts, ", ")
    decreases |parts|
  {
    if |parts| > 1 {
      var sp := Spaced(parts);
      assert sp[1..] == Spaced(parts[1..]);
      JoinSpaced(parts[1..]);
      calc {
        Join(sp, ",");
        sp[0] + "," + Join(sp[1..], ",");
        (" " + parts[0]) + "," + (" " + Join(parts[1..], ", "));
        " " + (parts[0] + ", " + Join(parts[1..], ", "));
        " " + Join(parts, ", ");
      }
    }
  }

  /** Joining with ", " is joining with "," the pieces after the first
      each preceded by a space. */
  lemma {:induction false} JoinCommaSpace(parts: seq<string>)
    requires |parts| >= 1
    ensures Join(parts, ", ") == Join([parts[0]] + Spaced(parts[1..]), ",")
  {
    if |parts| > 1 {
      var pieces := [parts[0]] + Spaced(parts[1..]);
      assert pieces[1..] == Spaced(parts[1..]);
      JoinSpaced(parts[1..]);
      calc {
        Join(pieces, ",");
        parts[0] + "," + Join(Spaced(parts[1..]), ",");
        parts[0] + "," + (" " + Join(parts[1..], ", "));
        parts[0] + ", " + Join(parts[1..], ", ");
        Join(parts, ", ");
      }
    }
  }

  /** Putting a space in front of comma-free items keeps them comma-free. */
  lemma SpacedKeepsFree(parts: seq<string>)
    requires forall k :: 0 <= k < |parts| ==> ',' !in parts[k]
    ensures forall k :: 0 <= k < |parts| ==> Free(Spaced(parts)[k], ',')
  {
    forall k | 0 <= k < |parts| ensures Free(Spaced(parts)[k], ',') {
      var p := Spaced(parts)[k];
      assert p == " " + parts[k];
      forall i | 0 <= i < |p| ensures p[i] != ',' {
        if i > 0 {
          assert p[i] == parts[k][i - 1];
          assert parts[k][i - 1] in parts[k];
        }
      }
    }
  }

  /** The pieces of a comma-free list, the later ones spaced, are comma-free. */
  lemma CommaFreePieces(parts: seq<string>)
    requires |parts| >= 1
    requires forall k :: 0 <= k < |parts| ==> ',' !in parts[k]
    ensures var pieces := [parts[0]] + Spaced(parts[1..]);
      forall k :: 0 <= k < |pieces| ==> Free(pieces[k], ',')
  {
    var tail := parts[1..];
    assert forall k :: 0 <= k < |tail| ==> tail[k] == parts[k + 1];
    SpacedKeepsFree(tail);
    var pieces := [parts[0]] + Spaced(tail);
    assert Free(parts[0], ',') by {
      forall i | 0 <= i < |parts[0]| ensures parts[0][i] != ',' {
        assert parts[0][i] in parts[0];
      }
    }
    assert forall k :: 0 < k < |pieces| ==> pieces[k] == Spaced(tail)[k - 1];
  }

  /** A list joined with ", " splits at its commas into its first item and
      the others each after a space, as long as no item holds a comma. */
  lemma SplitCommaSpaced(parts: seq<string>)
    requires |parts| >= 1
    requires forall k :: 0 <= k < |parts| ==> ',' !in parts[k]
    ensures Split(Join(parts, ", "), ',') == [parts[0]] + Spaced(parts[1..])
  {
    JoinCommaSpace(parts);
    CommaFreePieces(parts);
    SplitJoin([parts[0]] + Spaced(parts[1..]), ',');
  }
}
