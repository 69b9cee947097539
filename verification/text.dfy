/**
 * String helpers that stand for the JavaScript built-ins the dashboards call:
 * `trim`, `split(',')`, `toLowerCase`, `includes`, and the few regular-expression
 * replacements used by the list-cell parsers. Strings are sequences of Unicode
 * scalar values.
 */
module Text {

  /** The WhiteSpace and LineTerminator code points: the set that both
      `String.prototype.trim` and the regular-expression class `\s` use. */
  predicate IsSpace(c: char) {
    c == ' ' || c == '\t' || c == '\n' || c == '\r' || c == '\U{000B}' || c == '\U{000C}'
    || c == '\U{00A0}' || c == '\U{1680}' || ('\U{2000}' <= c <= '\U{200A}')
    || c == '\U{2028}' || c == '\U{2029}' || c == '\U{202F}' || c == '\U{205F}'
    || c == '\U{3000}' || c == '\U{FEFF}'
  }

  /** Neither end of `s` is white space. */
  predicate IsTrimmed(s: string) {
    |s| == 0 || (!IsSpace(s[0]) && !IsSpace(s[|s| - 1]))
  }

  function TrimStart(s: string): (r: string)
    ensures |r| <= |s| && r == s[|s| - |r|..]
    ensures |r| == 0 || !IsSpace(r[0])
    ensures forall i :: 0 <= i < |s| - |r| ==> IsSpace(s[i])
  {
    if |s| > 0 && IsSpace(s[0]) then TrimStart(s[1..]) else s
  }

  function TrimEnd(s: string): (r: string)
    ensures |r| <= |s| && r == s[..|r|]
    ensures |r| == 0 || !IsSpace(r[|r| - 1])
    ensures forall i :: |r| <= i < |s| ==> IsSpace(s[i])
  {
    if |s| > 0 && IsSpace(s[|s| - 1]) then TrimEnd(s[..|s| - 1]) else s
  }

  /** Everything of `s` before `i` and from `j` on is white space. */
  predicate SpaceOutside(s: string, i: nat, j: nat)
    requires i <= j <= |s|
  {
    (forall k :: 0 <= k < i ==> IsSpace(s[k])) && (forall k :: j <= k < |s| ==> IsSpace(s[k]))
  }

  /** `r` is the piece of `s` at `i`, with only white space around it. */
  predicate PieceAt(s: string, r: string, i: nat) {
    i + |r| <= |s| && s[i..i + |r|] == r && SpaceOutside(s, i, i + |r|)
  }

  /** `s.trim()`: drops white space at both ends and keeps the middle. */
  function Trim(s: string): (r: string)
    ensures IsTrimmed(r)
    ensures exists i :: 0 <= i <= |s| - |r| && IsPrefix(r, s[i..])
    ensures forall c :: c in r ==> c in s
  {
    var t := TrimStart(s);
    var r := TrimEnd(t);
    assert IsPrefix(r, s[|s| - |t|..]);
    assert forall c :: c in r ==> c in t;
    r
  }

  /** What `trim` leaves is the piece of `s` between the white space at its
      two ends: nothing but white space lies around it. */
  lemma TrimIsPiece(s: string)
    ensures exists i :: PieceAt(s, Trim(s), i)
  {
    var t := TrimStart(s);
    var r := TrimEnd(t);
    var i := |s| - |t|;
    assert Trim(s) == r;
    assert PieceAt(s, r, i) by {
      assert s[i..i + |r|] == r;
      SpaceAfter(s, i, |r|);
    }
  }

  lemma SpaceAfter(s: string, i: nat, n: nat)
    requires i + n <= |s|
    requires forall k :: n <= k < |s[i..]| ==> IsSpace(s[i..][k])
    ensures forall k :: i + n <= k < |s| ==> IsSpace(s[k])
  {
    forall k | i + n <= k < |s|
      ensures IsSpace(s[k])
    {
      assert s[k] == s[i..][k - i];
    }
  }

  /** Trimming a string that is already trimmed changes nothing. */
  lemma TrimOfTrimmed(s: string)
    requires IsTrimmed(s)
    ensures Trim(s) == s
  {
  }

  /** A string of white space trims to nothing. */
  lemma TrimAllSpace(s: string)
    ensures (forall i :: 0 <= i < |s| ==> IsSpace(s[i])) ==> Trim(s) == ""
  {
  }

  /** One space before a trimmed, non-empty string is trimmed away. */
  lemma TrimLeadingSpace(x: string)
    requires x != "" && IsTrimmed(x)
    ensures Trim(" " + x) == x
  {
    assert (" " + x)[1..] == x;
    assert TrimStart(" " + x) == TrimStart(x);
  }

  /** `s.split(sep)` for a one-character separator: the pieces between the
      separators, in order; the empty string gives one empty piece. */
  function Split(s: string, sep: char): (parts: seq<string>)
    ensures |parts| >= 1
    ensures forall p :: p in parts ==> sep !in p
  {
    if |s| == 0 then [""]
    else
      var rest := Split(s[1..], sep);
      if s[0] == sep then [""] + rest
      else [[s[0]] + rest[0]] + rest[1..]
  }

  /** Every character of a piece comes from the split string. */
  lemma {:induction false} SplitKeepsChars(s: string, sep: char)
    ensures forall p, c :: p in Split(s, sep) && c in p ==> c in s
  {
    if |s| > 0 {
      SplitKeepsChars(s[1..], sep);
      var rest := Split(s[1..], sep);
      assert forall c :: c in s[1..] ==> c in s;
      if s[0] != sep {
        assert forall c :: c in [s[0]] + rest[0] ==> c == s[0] || c in rest[0];
        assert rest[0] in rest;
        assert forall p :: p in rest[1..] ==> p in rest;
      }
    }
  }

  /** `parts.join(sep)`. */
  function Join(parts: seq<string>, sep: char): string
    requires |parts| >= 1
  {
    if |parts| == 1 then parts[0] else parts[0] + [sep] + Join(parts[1..], sep)
  }

  /** Joining the pieces of a split gives back the string. */
  lemma {:induction false} JoinSplit(s: string, sep: char)
    ensures Join(Split(s, sep), sep) == s
  {
    if |s| > 0 {
      JoinSplit(s[1..], sep);
      var rest := Split(s[1..], sep);
      if s[0] != sep {
        if |rest| > 1 {
          assert Join(rest, sep) == rest[0] + [sep] + Join(rest[1..], sep);
        }
      }
    }
  }

  /** Splitting a join of separator-free pieces gives back the pieces. */
  lemma {:induction false} SplitJoin(parts: seq<string>, sep: char)
    requires |parts| >= 1
    requires forall p :: p in parts ==> sep !in p
    ensures Split(Join(parts, sep), sep) == parts
  {
    if |parts| == 1 {
      SplitPiece(parts[0], sep);
    } else {
      SplitJoin(parts[1..], sep);
      SplitPrefix(parts[0], Join(parts[1..], sep), sep);
      assert Join(parts, sep) == parts[0] + [sep] + Join(parts[1..], sep);
    }
  }

  lemma {:induction false} SplitPiece(p: string, sep: char)
    requires sep !in p
    ensures Split(p, sep) == [p]
  {
    if |p| > 0 {
      SplitPiece(p[1..], sep);
      assert [p[0]] + p[1..] == p;
    }
  }

  lemma {:induction false} SplitPrefix(p: string, t: string, sep: char)
    requires sep !in p
    ensures Split(p + [sep] + t, sep) == [p] + Split(t, sep)
  {
    if |p| == 0 {
      assert p + [sep] + t == [sep] + t;
      assert ([sep] + t)[1..] == t;
    } else {
      SplitPrefix(p[1..], t, sep);
      var whole := p + [sep] + t;
      assert whole[0] == p[0] && whole[0] != sep;
      assert whole[1..] == p[1..] + [sep] + t;
      var rest := Split(whole[1..], sep);
      assert rest == [p[1..]] + Split(t, sep);
      assert Split(whole, sep) == [[p[0]] + rest[0]] + rest[1..];
      assert [p[0]] + p[1..] == p;
    }
  }

  /** `c.toLowerCase()` for the Basic Latin and Latin-1 capitals; other
      characters are kept as they are. */
  function LowerChar(c: char): (r: char)
    ensures r == c || ('A' <= c <= 'Z') || ('\U{00C0}' <= c <= '\U{00DE}' && c != '\U{00D7}')
  {
    if 'A' <= c <= 'Z' || ('\U{00C0}' <= c <= '\U{00DE}' && c != '\U{00D7}') then
      (c as int + 32) as char
    else c
  }

  /** `s.toLowerCase()`, character by character. */
  function Lower(s: string): (r: string)
    ensures |r| == |s|
    ensures forall i :: 0 <= i < |s| ==> r[i] == LowerChar(s[i])
  {
    seq(|s|, i requires 0 <= i < |s| => LowerChar(s[i]))
  }

  /** Lower-casing twice is lower-casing once. */
  lemma LowerIdempotent(s: string)
    ensures Lower(Lower(s)) == Lower(s)
  {
    forall i | 0 <= i < |s|
      ensures Lower(Lower(s))[i] == Lower(s)[i]
    {
      LowerCharIdempotent(s[i]);
    }
  }

  lemma LowerCharIdempotent(c: char)
    ensures LowerChar(LowerChar(c)) == LowerChar(c)
  {
  }

  predicate IsPrefix(p: string, s: string) {
    |p| <= |s| && s[..|p|] == p
  }

  /** `s.includes(sub)`: `sub` occurs in `s` at some position. */
  function Contains(s: string, sub: string): (b: bool)
    ensures b <==> exists i :: 0 <= i <= |s| - |sub| && IsPrefix(sub, s[i..])
  {
    if IsPrefix(sub, s) then
      assert IsPrefix(sub, s[0..]);
      true
    else if |s| == 0 then false
    else
      var r := Contains(s[1..], sub);
      assert forall i :: 1 <= i <= |s| - |sub| ==> s[i..] == s[1..][i - 1..];
      if r then
        var j :| 0 <= j <= |s[1..]| - |sub| && IsPrefix(sub, s[1..][j..]);
        assert s[1..][j..] == s[j + 1..];
        true
      else
        assert forall i :: 0 <= i <= |s| - |sub| ==> !IsPrefix(sub, s[i..]) by {
          forall i | 0 <= i <= |s| - |sub| ensures !IsPrefix(sub, s[i..]) {
            if i > 0 {
              assert s[1..][i - 1..] == s[i..];
            }
          }
        }
        false
  }

  /** `s.replace(/""/g, '"')`: every doubled quote, scanned left to right,
      becomes a single quote. */
  function CollapseDoubledQuotes(s: string): (r: string)
    ensures |r| <= |s|
  {
    if |s| >= 2 && s[0] == '"' && s[1] == '"' then "\"" + CollapseDoubledQuotes(s[2..])
    else if |s| == 0 then ""
    else [s[0]] + CollapseDoubledQuotes(s[1..])
  }

  /** A string without double quotes has nothing to collapse. */
  lemma {:induction false} CollapseWithoutQuotes(s: string)
    requires '"' !in s
    ensures CollapseDoubledQuotes(s) == s
  {
    if |s| > 0 {
      assert forall c :: c in s[1..] ==> c in s;
      CollapseWithoutQuotes(s[1..]);
      assert [s[0]] + s[1..] == s;
    }
  }

  predicate IsQuote(c: char) {
    c == '\'' || c == '"'
  }

  /** `s.replace(/['"]/g, "")`: deletes every single and double quote. */
  function DeleteQuotes(s: string): (r: string)
    ensures |r| <= |s|
  {
    if |s| == 0 then ""
    else (if IsQuote(s[0]) then "" else [s[0]]) + DeleteQuotes(s[1..])
  }

  /** What is left after deleting the quotes holds no quote and nothing that
      was not there; a string without quotes is left as it is. */
  lemma {:induction false} DeleteQuotesSpec(s: string)
    ensures forall c :: c in DeleteQuotes(s) ==> c in s && !IsQuote(c)
    ensures (forall c :: c in s ==> !IsQuote(c)) ==> DeleteQuotes(s) == s
  {
    if |s| > 0 {
      DeleteQuotesSpec(s[1..]);
      assert [s[0]] + s[1..] == s;
    }
  }

  /** Deleting the quotes of a concatenation deletes them piecewise. */
  lemma {:induction false} DeleteQuotesAppend(a: string, b: string)
    ensures DeleteQuotes(a + b) == DeleteQuotes(a) + DeleteQuotes(b)
  {
    if |a| > 0 {
      DeleteQuotesAppend(a[1..], b);
      assert (a + b)[0] == a[0];
      assert (a + b)[1..] == a[1..] + b;
      var head := if IsQuote(a[0]) then "" else [a[0]];
      assert DeleteQuotes(a + b) == head + DeleteQuotes(a[1..] + b);
      assert DeleteQuotes(a) == head + DeleteQuotes(a[1..]);
    } else {
      assert a + b == b;
    }
  }

  /** Collapsing doubled quotes before deleting all quotes is wasted work:
      the result is the same as deleting the quotes directly. */
  lemma {:induction false} CollapseThenDelete(s: string)
    ensures DeleteQuotes(CollapseDoubledQuotes(s)) == DeleteQuotes(s)
  {
    if |s| >= 2 && s[0] == '"' && s[1] == '"' {
      CollapseThenDelete(s[2..]);
      DeleteQuotesAppend("\"", CollapseDoubledQuotes(s[2..]));
      assert DeleteQuotes(s) == DeleteQuotes(s[1..]);
      assert s[1..][1..] == s[2..];
    } else if |s| > 0 {
      CollapseThenDelete(s[1..]);
      DeleteQuotesAppend([s[0]], CollapseDoubledQuotes(s[1..]));
    }
  }
}
