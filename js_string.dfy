/**
 * The JavaScript string operations the recipient parser relies on:
 * `String.prototype.split` on a single character or on `/\r?\n/`, and
 * `String.prototype.trim`.
 */
module JsString {

  /**
   * The characters `trim` removes: ECMAScript's WhiteSpace (tab, vertical
   * tab, form feed, space, no-break space, the byte order mark and every
   * space separator) and LineTerminator (LF, CR, line and paragraph separator).
   */
  predicate IsWhitespace(ch: char)
  {
    || ch == '\t' || ch == '\n' || ch == '\U{000B}' || ch == '\U{000C}' || ch == '\r'
    || ch == ' ' || ch == '\U{00A0}' || ch == '\U{1680}'
    || ('\U{2000}' <= ch <= '\U{200A}')
    || ch == '\U{2028}' || ch == '\U{2029}' || ch == '\U{202F}' || ch == '\U{205F}'
    || ch == '\U{3000}' || ch == '\U{FEFF}'
  }

  // ---------------------------------------------------------------------------
  // split

  /** `s.split(sep)` for a one-character separator; the empty string splits into `[""]`. */
  function Split(s: string, sep: char): (r: seq<string>)
    ensures |r| >= 1
    ensures forall k :: 0 <= k < |r| ==> sep !in r[k]
  {
    if s == [] then [[]]
    else
      var rest := Split(s[1..], sep);
      if s[0] == sep then [[]] + rest
      else [[s[0]] + rest[0]] + rest[1..]
  }

  /** `parts.join(sep)`. */
  function Join(parts: seq<string>, sep: char): string
  {
    if parts == [] then []
    else if |parts| == 1 then parts[0]
    else parts[0] + [sep] + Join(parts[1..], sep)
  }

  /** Splitting loses nothing: joining the pieces with the separator gives the text back. */
  lemma {:induction false} JoinSplit(s: string, sep: char)
    ensures Join(Split(s, sep), sep) == s
  {
    if s != [] {
      var rest := Split(s[1..], sep);
      JoinSplit(s[1..], sep);
      if s[0] == sep {
        assert Split(s, sep) == [[]] + rest;
      } else {
        var r := Split(s, sep);
        assert r == [[s[0]] + rest[0]] + rest[1..];
        if |rest| == 1 {
          assert Join(r, sep) == [s[0]] + rest[0];
        } else {
          assert rest == [rest[0]] + rest[1..];
          assert Join(rest, sep) == rest[0] + [sep] + Join(rest[1..], sep);
          assert r[1..] == rest[1..];
        }
        assert s == [s[0]] + s[1..];
      }
    }
  }

  /** Pieces without the separator come back unchanged from a join and a split. */
  lemma {:induction false} SplitJoin(parts: seq<string>, sep: char)
    requires |parts| >= 1
    requires forall k :: 0 <= k < |parts| ==> sep !in parts[k]
    ensures Split(Join(parts, sep), sep) == parts
  {
    if |parts| == 1 {
      SplitNoSeparator(parts[0], sep);
    } else {
      SplitJoin(parts[1..], sep);
      SplitConcat(parts[0], Join(parts[1..], sep), sep);
      SplitNoSeparator(parts[0], sep);
      assert parts == [parts[0]] + parts[1..];
    }
  }

  /** A text without the separator is one piece. */
  lemma {:induction false} SplitNoSeparator(s: string, sep: char)
    requires sep !in s
    ensures Split(s, sep) == [s]
  {
    if s != [] {
      SplitNoSeparator(s[1..], sep);
      assert s == [s[0]] + s[1..];
    }
  }

  /** Splitting `a + sep + b` gives the pieces of `a` followed by the pieces of `b`. */
  lemma {:induction false} SplitConcat(a: string, b: string, sep: char)
    ensures Split(a + [sep] + b, sep) == Split(a, sep) + Split(b, sep)
  {
    var s := a + [sep] + b;
    if a == [] {
      assert s == [sep] + b;
      assert s[1..] == b;
    } else {
      SplitConcat(a[1..], b, sep);
      assert s[1..] == a[1..] + [sep] + b;
      assert s[0] == a[0];
      var restA := Split(a[1..], sep);
      var restS := Split(s[1..], sep);
      assert restS == restA + Split(b, sep);
      if a[0] != sep {
        assert restS[0] == restA[0];
        assert restS[1..] == restA[1..] + Split(b, sep);
        assert Split(s, sep) == [[a[0]] + restA[0]] + restS[1..];
        assert Split(a, sep) == [[a[0]] + restA[0]] + restA[1..];
      }
    }
  }

  /**
   * The pieces are made of the text's own characters, and every character
   * other than the separator lands in some piece.
   */
  lemma {:induction false} SplitCovers(s: string, sep: char)
    ensures forall k, c :: 0 <= k < |Split(s, sep)| && c in Split(s, sep)[k] ==> c in s
    ensures forall i :: 0 <= i < |s| && s[i] != sep ==>
              exists k :: 0 <= k < |Split(s, sep)| && s[i] in Split(s, sep)[k]
  {
    if s != [] {
      var r := Split(s, sep);
      var rest := Split(s[1..], sep);
      SplitCovers(s[1..], sep);
      forall k, c | 0 <= k < |r| && c in r[k] ensures c in s {
        if s[0] == sep || k > 0 {
          assert r[k] == rest[k - 1] || r[k] == rest[k];
        }
        assert c == s[0] || c in s[1..];
      }
      forall i | 0 <= i < |s| && s[i] != sep
        ensures exists k :: 0 <= k < |r| && s[i] in r[k]
      {
        if i == 0 {
          assert s[0] in r[0];
        } else {
          assert s[i] == s[1..][i - 1];
          var k :| 0 <= k < |rest| && s[i] in rest[k];
          if s[0] == sep {
            assert r[k + 1] == rest[k];
          } else if k == 0 {
            assert r[0] == [s[0]] + rest[0];
          } else {
            assert r[k] == rest[k];
          }
        }
      }
    }
  }

  /** One `\r` ending a piece belongs to the `\r\n` separator. */
  function DropTrailingCR(p: string): string
  {
    if |p| > 0 && p[|p| - 1] == '\r' then p[..|p| - 1] else p
  }

  /**
   * `s.split(/\r?\n/)`: split at every `\n`, taking a `\r` just before it as
   * part of the separator. The last piece is not followed by a separator.
   */
  function SplitLines(s: string): (r: seq<string>)
    ensures |r| == |Split(s, '\n')|
    ensures forall k :: 0 <= k < |r| ==> '\n' !in r[k]
  {
    var pieces := Split(s, '\n');
    seq(|pieces|, k requires 0 <= k < |pieces| =>
      if k < |pieces| - 1 then DropTrailingCR(pieces[k]) else pieces[k])
  }

  // ---------------------------------------------------------------------------
  // trim

  function TrimStart(s: string): string
  {
    if s != [] && IsWhitespace(s[0]) then TrimStart(s[1..]) else s
  }

  function TrimEnd(s: string): string
  {
    if s != [] && IsWhitespace(s[|s| - 1]) then TrimEnd(s[..|s| - 1]) else s
  }

  /** `s.trim()`: the text without its leading and trailing whitespace. */
  function Trim(s: string): string
  {
    TrimEnd(TrimStart(s))
  }

  /** `TrimStart` drops a whitespace prefix and stops at the first other character. */
  lemma {:induction false} TrimStartSpec(s: string)
    ensures |TrimStart(s)| <= |s|
    ensures TrimStart(s) == s[|s| - |TrimStart(s)|..]
    ensures forall k :: 0 <= k < |s| - |TrimStart(s)| ==> IsWhitespace(s[k])
    ensures TrimStart(s) != [] ==> !IsWhitespace(TrimStart(s)[0])
  {
    if s != [] && IsWhitespace(s[0]) {
      TrimStartSpec(s[1..]);
    }
  }

  /** `TrimEnd` drops a whitespace suffix and stops at the last other character. */
  lemma {:induction false} TrimEndSpec(s: string)
    ensures |TrimEnd(s)| <= |s|
    ensures TrimEnd(s) == s[..|TrimEnd(s)|]
    ensures forall k :: |TrimEnd(s)| <= k < |s| ==> IsWhitespace(s[k])
    ensures TrimEnd(s) != [] ==> !IsWhitespace(TrimEnd(s)[|TrimEnd(s)| - 1])
  {
    if s != [] && IsWhitespace(s[|s| - 1]) {
      TrimEndSpec(s[..|s| - 1]);
    }
  }

  /** `TrimEnd` keeps a text that starts with a non-whitespace character so. */
  lemma TrimEndKeepsStart(s: string)
    requires s != [] && !IsWhitespace(s[0])
    ensures TrimEnd(s) != [] && TrimEnd(s)[0] == s[0]
  {
    TrimEndSpec(s);
  }

  /**
   * The trimmed text is a slice of the original, with only whitespace cut
   * off on either side, and neither starts nor ends with whitespace.
   */
  lemma TrimSpec(s: string)
    ensures |Trim(s)| <= |TrimStart(s)| <= |s|
    ensures var i := |s| - |TrimStart(s)|;
      && Trim(s) == s[i..i + |Trim(s)|]
      && (forall k :: 0 <= k < i ==> IsWhitespace(s[k]))
      && (forall k :: i + |Trim(s)| <= k < |s| ==> IsWhitespace(s[k]))
    ensures Trim(s) != [] ==> !IsWhitespace(Trim(s)[0]) && !IsWhitespace(Trim(s)[|Trim(s)| - 1])
  {
    var t := TrimStart(s);
    TrimStartSpec(s);
    TrimEndSpec(t);
    if t != [] {
      if TrimEnd(t) != [] {
        TrimEndKeepsStart(t);
      }
    }
    var i := |s| - |t|;
    forall k | i + |Trim(s)| <= k < |s| ensures IsWhitespace(s[k]) {
      assert s[k] == t[k - i];
    }
  }

  /** A text trims to nothing exactly when every character in it is whitespace. */
  lemma TrimEmptyIffBlank(s: string)
    ensures Trim(s) == [] <==> forall k :: 0 <= k < |s| ==> IsWhitespace(s[k])
  {
    TrimSpec(s);
    if forall k :: 0 <= k < |s| ==> IsWhitespace(s[k]) {
      if Trim(s) != [] {
        var i := |s| - |TrimStart(s)|;
        assert Trim(s)[0] == s[i];
      }
    }
  }

  /** Trimming twice is trimming once. */
  lemma TrimIdempotent(s: string)
    ensures Trim(Trim(s)) == Trim(s)
  {
    var t := Trim(s);
    TrimSpec(s);
    if t != [] {
      assert TrimStart(t) == t;
      assert TrimEnd(t) == t;
    }
  }

  /** A `\r` that `split(/\r?\n/)` takes away is one `trim` would remove anyway. */
  lemma TrimDropTrailingCR(p: string)
    ensures Trim(DropTrailingCR(p)) == Trim(p)
  {
    if |p| > 0 && p[|p| - 1] == '\r' {
      var q := p[..|p| - 1];
      TrimStartSpec(p);
      TrimStartSpec(q);
      if TrimStart(p) == [] {
        TrimEmptyIffBlank(p);
        TrimEmptyIffBlank(q);
      } else {
        TrimStartCommutesWithCR(p);
        assert TrimEnd(TrimStart(p)) == TrimEnd(TrimStart(q));
      }
    }
  }

  /** When a text ending in `\r` has some non-whitespace, trimming its start keeps that `\r` last. */
  lemma {:induction false} TrimStartCommutesWithCR(p: string)
    requires |p| > 0 && p[|p| - 1] == '\r' && TrimStart(p) != []
    ensures TrimEnd(TrimStart(p)) == TrimEnd(TrimStart(p[..|p| - 1]))
  {
    var q := p[..|p| - 1];
    if IsWhitespace(p[0]) {
      assert TrimStart(p) == TrimStart(p[1..]);
      assert |p| > 1;
      assert p[1..][..|p[1..]| - 1] == q[1..];
      TrimStartCommutesWithCR(p[1..]);
      assert q[0] == p[0];
      assert TrimStart(q) == TrimStart(q[1..]);
    } else {
      assert p[0] != p[|p| - 1];
      assert q[0] == p[0];
      assert TrimStart(p) == p;
      assert TrimStart(q) == q;
      assert TrimEnd(p) == TrimEnd(q);
    }
  }
}
