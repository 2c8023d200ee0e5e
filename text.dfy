/**
 * The Python string operations the pipeline and its import commands rely on:
 * `str.strip`, `str.split`, `str.find`/`str.rfind`, `str.startswith`/`str.endswith`,
 * `str.lower`, the regular expression `"([^"]*)"` used with `re.findall`, and the
 * character class `[^\w\s/-]` used with `re.sub`.
 */
module Text {

  /** Characters that `str.strip()` and the regex class `\s` treat as whitespace (the ASCII ones). */
  predicate IsSpace(c: char)
  {
    ('\t' <= c <= '\r') || ('\U{1C}' <= c <= ' ')
  }

  /** The regex class `\w`, restricted to ASCII: letters, digits and underscore. */
  predicate IsWordChar(c: char)
  {
    ('a' <= c <= 'z') || ('A' <= c <= 'Z') || ('0' <= c <= '9') || c == '_'
  }

  /** A string with no whitespace at either end. */
  predicate IsStripped(s: string)
  {
    s == [] || (!IsSpace(s[0]) && !IsSpace(s[|s| - 1]))
  }

  predicate AllSpace(s: string)
  {
    forall i :: 0 <= i < |s| ==> IsSpace(s[i])
  }

  function StripLeft(s: string): (r: string)
    ensures |r| <= |s| && r == s[|s| - |r|..]
    ensures r == [] || !IsSpace(r[0])
    ensures AllSpace(s[..|s| - |r|])
  {
    if s != [] && IsSpace(s[0]) then StripLeft(s[1..]) else s
  }

  function StripRight(s: string): (r: string)
    ensures |r| <= |s| && r == s[..|r|]
    ensures r == [] || !IsSpace(r[|r| - 1])
    ensures AllSpace(s[|r|..])
  {
    if s != [] && IsSpace(s[|s| - 1]) then StripRight(s[..|s| - 1]) else s
  }

  /** Python's `s.strip()`. */
  function Strip(s: string): (r: string)
    ensures IsStripped(r)
    ensures forall c :: c in r ==> c in s
    ensures r == [] <==> AllSpace(s)
    ensures IsStripped(s) ==> r == s
  {
    var l := StripLeft(s);
    var r := StripRight(l);
    StripFacts(s, l, r);
    r
  }

  /** What `Strip` promises, from the cut points of `StripLeft` and `StripRight` alone. */
  lemma StripFacts(s: string, l: string, r: string)
    requires |l| <= |s| && l == s[|s| - |l|..] && AllSpace(s[..|s| - |l|]) && (l == [] || !IsSpace(l[0]))
    requires |r| <= |l| && r == l[..|r|] && AllSpace(l[|r|..]) && (r == [] || !IsSpace(r[|r| - 1]))
    ensures IsStripped(r)
    ensures forall c :: c in r ==> c in s
    ensures r == [] <==> AllSpace(s)
    ensures IsStripped(s) ==> r == s
  {
    var i := |s| - |l|;
    CutThree(s, l, r);
    forall c | c in r ensures c in s {
      var k :| 0 <= k < |r| && r[k] == c;
      assert s[i + k] == c;
    }
    if r == [] {
      assert l == [];
      assert s[..i] == s;
    } else {
      assert s[i + |r| - 1] == r[|r| - 1];
    }
    if IsStripped(s) && s != [] {
      assert l == s;
    }
  }

  /** `s.strip()` removes an all-whitespace prefix and suffix and keeps what lies between. */
  lemma StripTrims(s: string)
    ensures exists i, j | 0 <= i <= j <= |s| :: Strip(s) == s[i..j] && AllSpace(s[..i]) && AllSpace(s[j..])
  {
    var i := StripParts(s);
  }

  /** `StripTrims` with the cut point named: what `StripLeft` drops, then the stripped core. */
  lemma StripParts(s: string) returns (i: nat)
    ensures i + |Strip(s)| <= |s|
    ensures s == s[..i] + Strip(s) + s[i + |Strip(s)|..]
    ensures Strip(s) == s[i..i + |Strip(s)|]
    ensures AllSpace(s[..i]) && AllSpace(s[i + |Strip(s)|..])
  {
    var l := StripLeft(s);
    var r := StripRight(l);
    assert Strip(s) == r;
    CutThree(s, l, r);
    i := |s| - |l|;
  }

  /** Slicing facts behind `StripParts`: a suffix `l` of `s` after blanks, and a prefix `r` of `l` before blanks. */
  lemma CutThree(s: string, l: string, r: string)
    requires |l| <= |s| && l == s[|s| - |l|..] && AllSpace(s[..|s| - |l|])
    requires |r| <= |l| && r == l[..|r|] && AllSpace(l[|r|..])
    ensures var i := |s| - |l|;
      && i + |r| <= |s|
      && s == s[..i] + r + s[i + |r|..]
      && r == s[i..i + |r|]
      && AllSpace(s[..i]) && AllSpace(s[i + |r|..])
  {
    var i := |s| - |l|;
    assert s == s[..i] + l;
    assert l == r + l[|r|..];
    assert s[i + |r|..] == l[|r|..];
  }

  /** Leading whitespace before a non-space start is exactly what `StripLeft` removes. */
  lemma {:induction false} StripLeftOf(p: string, rest: string)
    requires AllSpace(p) && (rest == [] || !IsSpace(rest[0]))
    ensures StripLeft(p + rest) == rest
  {
    if p == [] {
      assert p + rest == rest;
    } else {
      assert (p + rest)[1..] == p[1..] + rest;
      StripLeftOf(p[1..], rest);
    }
  }

  /** Trailing whitespace after a non-space end is exactly what `StripRight` removes. */
  lemma {:induction false} StripRightOf(rest: string, q: string)
    requires AllSpace(q) && (rest == [] || !IsSpace(rest[|rest| - 1]))
    ensures StripRight(rest + q) == rest
  {
    if q == [] {
      assert rest + q == rest;
    } else {
      assert (rest + q)[..|rest + q| - 1] == rest + q[..|q| - 1];
      StripRightOf(rest, q[..|q| - 1]);
    }
  }

  /** Stripping text that is a stripped core between whitespace gives the core. */
  lemma StripOf(p: string, m: string, q: string)
    requires AllSpace(p) && AllSpace(q) && IsStripped(m)
    ensures Strip(p + m + q) == m
  {
    if m == [] {
      assert AllSpace(p + m + q);
    } else {
      assert p + m + q == p + (m + q);
      StripLeftOf(p, m + q);
      StripRightOf(m, q);
    }
  }

  function LowerChar(c: char): (d: char)
  {
    if 'A' <= c <= 'Z' then (c as int - 'A' as int + 'a' as int) as char else c
  }

  /** Python's `s.lower()`, for ASCII letters. */
  function Lower(s: string): (r: string)
    ensures |r| == |s|
    ensures forall i :: 0 <= i < |s| ==> r[i] == LowerChar(s[i])
    ensures forall i :: 0 <= i < |r| ==> !('A' <= r[i] <= 'Z')
    ensures forall i :: 0 <= i < |s| && !('A' <= s[i] <= 'Z') ==> r[i] == s[i]
  {
    seq(|s|, i requires 0 <= i < |s| => LowerChar(s[i]))
  }

  predicate StartsWith(s: string, prefix: string)
  {
    |prefix| <= |s| && s[..|prefix|] == prefix
  }

  predicate EndsWith(s: string, suffix: string)
  {
    |suffix| <= |s| && s[|s| - |suffix|..] == suffix
  }

  /** The position of the first `c` in `s`. */
  function IndexOf(s: string, c: char): (i: nat)
    requires c in s
    ensures i < |s| && s[i] == c && c !in s[..i]
  {
    if s[0] == c then 0 else 1 + IndexOf(s[1..], c)
  }

  /** The position of the last `c` in `s`. */
  function LastIndexOf(s: string, c: char): (i: nat)
    requires c in s
    ensures i < |s| && s[i] == c && c !in s[i + 1..]
  {
    if s[|s| - 1] == c then |s| - 1 else LastIndexOf(s[..|s| - 1], c)
  }

  /** Python's `s.find(c)`: the first position of `c`, or -1. */
  function Find(s: string, c: char): (i: int)
    ensures i == -1 <==> c !in s
    ensures i != -1 ==> 0 <= i < |s| && s[i] == c && c !in s[..i]
  {
    if c in s then IndexOf(s, c) else -1
  }

  /** Python's `s.rfind(c)`: the last position of `c`, or -1. */
  function RFind(s: string, c: char): (i: int)
    ensures i == -1 <==> c !in s
    ensures i != -1 ==> 0 <= i < |s| && s[i] == c && c !in s[i + 1..]
  {
    if c in s then LastIndexOf(s, c) else -1
  }

  /** The pieces joined with `sep` between consecutive pieces: Python's `sep.join(pieces)`. */
  function Join(pieces: seq<string>, sep: string): string
  {
    if pieces == [] then []
    else if |pieces| == 1 then pieces[0]
    else pieces[0] + sep + Join(pieces[1..], sep)
  }

  /** Python's `s.split(sep)` for a one-character separator. */
  function Split(s: string, sep: char): (r: seq<string>)
    ensures |r| >= 1
    ensures forall i :: 0 <= i < |r| ==> sep !in r[i]
    decreases |s|
  {
    if sep !in s then [s]
    else
      var i := IndexOf(s, sep);
      [s[..i]] + Split(s[i + 1..], sep)
  }

  /** Joining the pieces of a split with the separator gives the string back. */
  lemma {:induction false} JoinOfSplit(s: string, sep: char)
    ensures Join(Split(s, sep), [sep]) == s
    decreases |s|
  {
    if sep in s {
      var i := IndexOf(s, sep);
      var rest := Split(s[i + 1..], sep);
      assert Split(s, sep) == [s[..i]] + rest;
      assert Split(s, sep)[1..] == rest;
      JoinOfSplit(s[i + 1..], sep);
      calc {
        Join(Split(s, sep), [sep]);
        s[..i] + [sep] + Join(rest, [sep]);
        s[..i] + [sep] + s[i + 1..];
        { assert s[i] == sep; }
        s;
      }
    } else {
      assert Split(s, sep) == [s];
    }
  }

  /**
   * `re.findall(r'"([^"]*)"', s)`: the text between each pair of double quotes,
   * pairing quotes left to right; an unpaired last quote yields nothing.
   */
  function FindQuoted(s: string): seq<string>
    decreases |s|
  {
    if '"' !in s then []
    else
      var rest := s[IndexOf(s, '"') + 1..];
      if '"' !in rest then []
      else
        var j := IndexOf(rest, '"');
        [rest[..j]] + FindQuoted(rest[j + 1..])
  }

  /** `[t.strip() for t in xs if t.strip()]`: trimmed pieces, empties dropped, order kept. */
  function CleanNames(xs: seq<string>): (r: seq<string>)
    ensures |r| <= |xs|
    ensures forall i :: 0 <= i < |r| ==> r[i] != [] && IsStripped(r[i])
    ensures forall n :: n in r <==> n != [] && exists x :: x in xs && Strip(x) == n
  {
    if xs == [] then []
    else
      var head := if Strip(xs[0]) != [] then [Strip(xs[0])] else [];
      var tail := CleanNames(xs[1..]);
      assert forall x :: x in xs <==> x == xs[0] || x in xs[1..];
      head + tail
  }

  /** Each item wrapped in double quotes, joined by `", "`. */
  function QuoteAll(xs: seq<string>): string
  {
    Join(seq(|xs|, i requires 0 <= i < |xs| => "\"" + xs[i] + "\""), ", ")
  }

  /** The first occurrence of `c` is at `k` when `s[k] == c` and no `c` comes earlier. */
  lemma IndexOfAt(s: string, c: char, k: nat)
    requires k < |s| && s[k] == c && c !in s[..k]
    ensures IndexOf(s, c) == k
  {
  }

  /** No occurrence of `c` comes before the first one. */
  lemma {:induction false} IndexOfIsFirst(s: string, c: char, i: nat)
    requires i < |s| && s[i] == c
    ensures IndexOf(s, c) <= i
  {
    if s[0] != c {
      IndexOfIsFirst(s[1..], c, i - 1);
    }
  }

  /** No occurrence of `c` comes after the last one. */
  lemma {:induction false} LastIndexOfIsLast(s: string, c: char, i: nat)
    requires i < |s| && s[i] == c
    ensures LastIndexOf(s, c) >= i
  {
    if s[|s| - 1] != c {
      LastIndexOfIsLast(s[..|s| - 1], c, i);
    }
  }

  lemma NoQuoteInConcat(pre: string, s: string)
    requires '"' !in pre && '"' !in s
    ensures '"' !in pre + s
  {
  }

  /** The quoted-term extraction of a string without quotes is empty. */
  lemma FindQuotedNone(s: string)
    requires '"' !in s
    ensures FindQuoted(s) == []
  {
  }

  /** The first piece of a split is everything before the first separator. */
  lemma SplitHead(s: string, sep: char)
    ensures Split(s, sep)[0] == if sep in s then s[..IndexOf(s, sep)] else s
  {
  }

  /** One step of the extraction: everything after the first quote is searched for the closing one. */
  lemma FindQuotedStep(s: string)
    requires '"' in s
    ensures FindQuoted(s) == FindQuotedAfterOpen(s[IndexOf(s, '"') + 1..])
  {
  }

  function FindQuotedAfterOpen(rest: string): seq<string>
  {
    if '"' !in rest then [] else [rest[..IndexOf(rest, '"')]] + FindQuoted(rest[IndexOf(rest, '"') + 1..])
  }

  /** No extracted term contains a double quote. */
  lemma {:induction false} FindQuotedHasNoQuotes(s: string)
    ensures forall x :: x in FindQuoted(s) ==> '"' !in x
    decreases |s|
  {
    if '"' in s {
      FindQuotedStep(s);
      var rest := s[IndexOf(s, '"') + 1..];
      if '"' in rest {
        FindQuotedHasNoQuotes(rest[IndexOf(rest, '"') + 1..]);
      }
    }
  }

  /** Text without quotes in front of a string contributes no quoted terms. */
  lemma {:induction false} FindQuotedSkipsUnquoted(pre: string, s: string)
    requires '"' !in pre
    ensures FindQuoted(pre + s) == FindQuoted(s)
  {
    var t := pre + s;
    if '"' in s {
      var k := IndexOf(s, '"');
      assert t[..|pre| + k] == pre + s[..k];
      IndexOfAt(t, '"', |pre| + k);
      var rest := s[k + 1..];
      assert t[IndexOf(t, '"') + 1..] == rest;
      FindQuotedStep(t);
      FindQuotedStep(s);
    } else {
      NoQuoteInConcat(pre, s);
      FindQuotedNone(t);
      FindQuotedNone(s);
    }
  }

  /** A leading quoted item is extracted first, and the extraction resumes after it. */
  lemma FindQuotedCons(x: string, tail: string)
    requires '"' !in x
    ensures FindQuoted("\"" + x + "\"" + tail) == [x] + FindQuoted(tail)
  {
    var t := "\"" + x + "\"" + tail;
    IndexOfAt(t, '"', 0);
    var rest := t[1..];
    assert rest == x + "\"" + tail;
    assert rest[..|x|] == x;
    IndexOfAt(rest, '"', |x|);
    assert rest[|x| + 1..] == tail;
  }

  lemma QuoteAllCons(xs: seq<string>)
    requires xs != []
    ensures QuoteAll(xs) == "\"" + xs[0] + "\"" + (if |xs| == 1 then [] else ", " + QuoteAll(xs[1..]))
  {
    var q := seq(|xs|, i requires 0 <= i < |xs| => "\"" + xs[i] + "\"");
    var q' := seq(|xs| - 1, i requires 0 <= i < |xs| - 1 => "\"" + xs[1..][i] + "\"");
    assert q[1..] == q';
  }

  /** Quoting is undone by the quoted-term extraction, when no item contains a quote. */
  lemma {:induction false} FindQuotedOfQuoteAll(xs: seq<string>)
    requires forall i :: 0 <= i < |xs| ==> '"' !in xs[i]
    ensures FindQuoted(QuoteAll(xs)) == xs
  {
    if xs != [] {
      QuoteAllCons(xs);
      var tail := if |xs| == 1 then [] else ", " + QuoteAll(xs[1..]);
      FindQuotedCons(xs[0], tail);
      if |xs| > 1 {
        FindQuotedSkipsUnquoted(", ", QuoteAll(xs[1..]));
        FindQuotedOfQuoteAll(xs[1..]);
      }
    }
  }

  /** A string whose first separator follows `head` splits into `head` and the pieces of what follows. */
  lemma SplitAtFirst(head: string, sep: char, rest: string)
    requires sep !in head
    ensures Split(head + [sep] + rest, sep) == [head] + Split(rest, sep)
  {
    var s := head + [sep] + rest;
    assert s[|head|] == sep && s[..|head|] == head && s[|head| + 1..] == rest;
    IndexOfAt(s, sep, |head|);
  }

  /** Splitting a separator-join of separator-free pieces gives the pieces back. */
  lemma {:induction false} SplitOfJoin(pieces: seq<string>, sep: char)
    requires |pieces| >= 1
    requires forall i :: 0 <= i < |pieces| ==> sep !in pieces[i]
    ensures Split(Join(pieces, [sep]), sep) == pieces
  {
    if |pieces| == 1 {
      assert Split(Join(pieces, [sep]), sep) == [pieces[0]];
    } else {
      var tail := pieces[1..];
      assert forall i :: 0 <= i < |tail| ==> sep !in tail[i] by {
        forall i | 0 <= i < |tail| ensures sep !in tail[i] {
          assert tail[i] == pieces[i + 1];
        }
      }
      calc {
        Split(Join(pieces, [sep]), sep);
        { assert Join(pieces, [sep]) == pieces[0] + [sep] + Join(tail, [sep]); }
        Split(pieces[0] + [sep] + Join(tail, [sep]), sep);
        { SplitAtFirst(pieces[0], sep, Join(tail, [sep])); }
        [pieces[0]] + Split(Join(tail, [sep]), sep);
        { SplitOfJoin(tail, sep); }
        [pieces[0]] + tail;
        pieces;
      }
    }
  }
}
