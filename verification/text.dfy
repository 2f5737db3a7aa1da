/** Python string and path primitives that the OCR pipeline relies on:
    `str.isspace`/`str.strip`, `' '.join`, `str.split(' ')`, the `{text}`
    substitution done by `str.format`, ASCII `str.lower`, and the
    `name`/`suffix`/`stem` of a `pathlib` path. */
module Text {

  /** The characters for which Python's `str.isspace()` holds. */
  predicate IsSpace(c: char)
  {
    c == ' ' || ('\t' <= c <= '\r') || ('\U{1C}' <= c <= '\U{1F}') ||
    c == '\U{85}' || c == '\U{A0}' || c == '\U{1680}' || ('\U{2000}' <= c <= '\U{200A}') ||
    c == '\U{2028}' || c == '\U{2029}' || c == '\U{202F}' || c == '\U{205F}' || c == '\U{3000}'
  }

  /** `s.lstrip()`: `s` without its leading whitespace. */
  function LStrip(s: string): string
  {
    if s != [] && IsSpace(s[0]) then LStrip(s[1..]) else s
  }

  /** `s.lstrip()` is the suffix of `s` after its leading whitespace. */
  lemma {:induction false} LStripSpec(s: string)
    ensures var r := LStrip(s);
      && |r| <= |s| && r == s[|s| - |r|..]
      && (forall k :: 0 <= k < |s| - |r| ==> IsSpace(s[k]))
      && (r != [] ==> !IsSpace(r[0]))
  {
    if s != [] && IsSpace(s[0]) {
      var t := s[1..];
      LStripSpec(t);
      var r := LStrip(t);
      assert LStrip(s) == r;
      assert t[|t| - |r|..] == s[|s| - |r|..];
      forall k | 0 <= k < |s| - |r| ensures IsSpace(s[k]) {
        if k > 0 { assert s[k] == t[k - 1]; }
      }
    }
  }

  /** `s.rstrip()`: `s` without its trailing whitespace. */
  function RStrip(s: string): string
  {
    if s != [] && IsSpace(s[|s| - 1]) then RStrip(s[..|s| - 1]) else s
  }

  /** `s.rstrip()` is the prefix of `s` before its trailing whitespace. */
  lemma {:induction false} RStripSpec(s: string)
    ensures var r := RStrip(s);
      && |r| <= |s| && r == s[..|r|]
      && (forall k :: |r| <= k < |s| ==> IsSpace(s[k]))
      && (r != [] ==> !IsSpace(r[|r| - 1]))
  {
    if s != [] && IsSpace(s[|s| - 1]) {
      RStripSpec(s[..|s| - 1]);
    }
  }

  /** `s.strip()`. */
  function Strip(s: string): string
  {
    RStrip(LStrip(s))
  }

  /** `s.strip()` is the slice of `s` that starts after its leading
      whitespace and ends before its trailing whitespace, and it neither
      starts nor ends with whitespace. */
  lemma StripIsTrimmedSlice(s: string)
    ensures var i, r := |s| - |LStrip(s)|, Strip(s);
      && 0 <= i && i + |r| <= |s| && r == s[i..i + |r|]
      && (forall k :: 0 <= k < i ==> IsSpace(s[k]))
      && (forall k :: i + |r| <= k < |s| ==> IsSpace(s[k]))
      && (r != [] ==> !IsSpace(r[0]) && !IsSpace(r[|r| - 1]))
  {
    var l := LStrip(s);
    var i := |s| - |l|;
    var r := RStrip(l);
    LStripSpec(s);
    RStripSpec(l);
    assert l == s[i..];
    assert r == l[..|r|];
    assert r == s[i..i + |r|];
    forall k | i + |r| <= k < |s| ensures IsSpace(s[k]) {
      assert s[k] == l[k - i];
    }
  }

  /** `not s or not s.strip()`: the text is empty or whitespace only. */
  predicate IsBlank(s: string)
  {
    Strip(s) == []
  }

  /** A text is blank exactly when every character of it is whitespace. */
  lemma BlankIffAllSpace(s: string)
    ensures IsBlank(s) <==> forall k :: 0 <= k < |s| ==> IsSpace(s[k])
  {
    var l := LStrip(s);
    LStripSpec(s);
    RStripSpec(l);
    if !IsBlank(s) {
      var r := Strip(s);
      assert r[0] == s[|s| - |l|];
    }
  }

  lemma NoLeadingSpace(r: string)
    requires r != [] && !IsSpace(r[0])
    ensures LStrip(r) == r
  {
  }

  lemma NoTrailingSpace(r: string)
    requires r != [] && !IsSpace(r[|r| - 1])
    ensures RStrip(r) == r
  {
  }

  /** Stripping twice is stripping once. */
  lemma {:induction false} StripIdempotent(s: string)
    ensures Strip(Strip(s)) == Strip(s)
  {
    var r := Strip(s);
    StripIsTrimmedSlice(s);
    if r != [] {
      NoLeadingSpace(r);
      NoTrailingSpace(r);
    }
  }

  /** `' '.join(xs)`. */
  function Join(xs: seq<string>): (r: string)
    ensures xs == [] ==> r == []
    ensures xs != [] ==> |r| == TotalLength(xs) + |xs| - 1
  {
    if xs == [] then []
    else if |xs| == 1 then xs[0]
    else xs[0] + " " + Join(xs[1..])
  }

  /** Sum of the lengths of the strings of `xs`. */
  function TotalLength(xs: seq<string>): nat
  {
    if xs == [] then 0 else |xs[0]| + TotalLength(xs[1..])
  }

  /** `s.split(' ')`: the pieces of `s` between single spaces (never empty). */
  function Split(s: string): (r: seq<string>)
    ensures |r| >= 1
    ensures forall j :: 0 <= j < |r| ==> ' ' !in r[j]
  {
    if s == [] then [""]
    else if s[0] == ' ' then [""] + Split(s[1..])
    else
      var rest := Split(s[1..]);
      [[s[0]] + rest[0]] + rest[1..]
  }

  lemma {:induction false} SplitWithoutSpace(x: string)
    requires ' ' !in x
    ensures Split(x) == [x]
  {
    if x != [] {
      SplitWithoutSpace(x[1..]);
      assert [x[0]] + x[1..] == x;
    }
  }

  lemma {:induction false} SplitAfterPiece(x: string, t: string)
    requires ' ' !in x
    ensures Split(x + " " + t) == [x] + Split(t)
  {
    if x == [] {
      assert x + " " + t == [' '] + t;
      assert (x + " " + t)[1..] == t;
    } else {
      assert (x + " " + t)[1..] == x[1..] + " " + t;
      SplitAfterPiece(x[1..], t);
      assert [x[0]] + x[1..] == x;
    }
  }

  /** Splitting a join of space-free pieces gives the pieces back. */
  lemma {:induction false} SplitJoin(xs: seq<string>)
    requires xs != []
    requires forall j :: 0 <= j < |xs| ==> ' ' !in xs[j]
    ensures Split(Join(xs)) == xs
  {
    if |xs| == 1 {
      SplitWithoutSpace(xs[0]);
    } else {
      SplitAfterPiece(xs[0], Join(xs[1..]));
      SplitJoin(xs[1..]);
    }
  }

  /** Joining the pieces of a split gives the text back. */
  lemma {:induction false} JoinSplit(s: string)
    ensures Join(Split(s)) == s
  {
    if s == [] {
    } else if s[0] == ' ' {
      JoinSplit(s[1..]);
      var rest := Split(s[1..]);
      assert Join([""] + rest) == "" + " " + Join(rest);
    } else {
      JoinSplit(s[1..]);
      var rest := Split(s[1..]);
      var r := [[s[0]] + rest[0]] + rest[1..];
      if |rest| == 1 {
        assert Join(r) == [s[0]] + rest[0];
      } else {
        assert Join(rest) == rest[0] + " " + Join(rest[1..]);
        assert r[1..] == rest[1..];
        assert Join(r) == ([s[0]] + rest[0]) + " " + Join(rest[1..]);
      }
      assert [s[0]] + s[1..] == s;
    }
  }

  /** The `{text}` replacement field of a prompt template. */
  const Placeholder: string := "{text}"

  /** `template.format(text=x)` for a template whose only replacement
      field is `{text}`: every occurrence, left to right, becomes `x`. */
  function Substitute(template: string, x: string): string
  {
    if |template| < |Placeholder| then template
    else if template[..|Placeholder|] == Placeholder then x + Substitute(template[|Placeholder|..], x)
    else [template[0]] + Substitute(template[1..], x)
  }

  /** A template with no `{` is left unchanged. */
  lemma {:induction false} SubstituteBraceFree(t: string, x: string)
    requires '{' !in t
    ensures Substitute(t, x) == t
  {
    if |t| >= |Placeholder| {
      assert t[0] != Placeholder[0];
      SubstituteBraceFree(t[1..], x);
      assert [t[0]] + t[1..] == t;
    }
  }

  lemma SubstituteShort(t: string, x: string)
    requires |t| < |Placeholder|
    ensures Substitute(t, x) == t
  {
  }

  /** A brace-free prefix passes through a substitution untouched. */
  lemma {:induction false} SubstituteBraceFreePrefix(a: string, t: string, x: string)
    requires '{' !in a
    ensures Substitute(a + t, x) == a + Substitute(t, x)
  {
    if a != [] {
      var at := a + t;
      assert at[0] == a[0] != Placeholder[0];
      assert at[1..] == a[1..] + t;
      SubstituteBraceFreePrefix(a[1..], t, x);
      if |at| >= |Placeholder| {
        assert at[..|Placeholder|][0] == at[0];
        calc {
          Substitute(at, x);
          [a[0]] + Substitute(a[1..] + t, x);
          [a[0]] + (a[1..] + Substitute(t, x));
          ([a[0]] + a[1..]) + Substitute(t, x);
          { assert [a[0]] + a[1..] == a; }
          a + Substitute(t, x);
        }
      } else {
        SubstituteShort(t, x);
      }
    } else {
      assert a + t == t;
    }
  }

  /** A template `pre{text}post` with brace-free `pre` and `post` yields
      `pre + x + post`. */
  lemma SubstituteSingle(pre: string, post: string, x: string)
    requires '{' !in pre && '{' !in post
    ensures Substitute(pre + Placeholder + post, x) == pre + x + post
  {
    assert pre + Placeholder + post == pre + (Placeholder + post);
    SubstituteBraceFreePrefix(pre, Placeholder + post, x);
    assert (Placeholder + post)[..|Placeholder|] == Placeholder;
    assert (Placeholder + post)[|Placeholder|..] == post;
    SubstituteBraceFree(post, x);
    assert pre + (x + post) == pre + x + post;
  }

  /** `s.rstrip(c)`: `s` without its trailing run of `c`. */
  function RStripChar(s: string, c: char): (r: string)
    ensures |r| <= |s| && r == s[..|r|]
    ensures forall k :: |r| <= k < |s| ==> s[k] == c
    ensures r != [] ==> r[|r| - 1] != c
  {
    if s != [] && s[|s| - 1] == c then RStripChar(s[..|s| - 1], c) else s
  }

  /** Decimal digits of a natural number. */
  function NatToString(n: nat): (r: string)
    ensures r != [] && forall k :: 0 <= k < |r| ==> '0' <= r[k] <= '9'
  {
    var d := ['0' + (n % 10) as char];
    if n < 10 then d else NatToString(n / 10) + d
  }

  /** The number a string of decimal digits denotes. */
  function DigitsValue(s: string): nat
  {
    if s == [] then 0
    else DigitsValue(s[..|s| - 1]) * 10 + (if '0' <= s[|s| - 1] <= '9' then (s[|s| - 1] as int - '0' as int) else 0)
  }

  /** `str(n)` denotes `n`, and has no leading zero unless `n` is 0. */
  lemma {:induction false} NatToStringValue(n: nat)
    ensures DigitsValue(NatToString(n)) == n
    ensures NatToString(n)[0] == '0' <==> n == 0
  {
    var d := ['0' + (n % 10) as char];
    if n >= 10 {
      NatToStringValue(n / 10);
      var r := NatToString(n / 10) + d;
      assert r[..|r| - 1] == NatToString(n / 10);
    }
  }

  /** `str(n)` of an integer. */
  function IntToString(n: int): string
  {
    if n < 0 then "-" + NatToString(-n) else NatToString(n)
  }

  /** ASCII case mapping of `str.lower()`. */
  function LowerChar(c: char): char
  {
    if 'A' <= c <= 'Z' then (c as int + 32) as char else c
  }

  /** `s.lower()` restricted to ASCII letters. */
  function Lower(s: string): string
  {
    if s == [] then [] else [LowerChar(s[0])] + Lower(s[1..])
  }

  /** Index of the last `c` among the first `n` characters of `s`, or -1
      when there is none (`str.rfind`). */
  function LastIndex(s: string, c: char, n: nat): (i: int)
    requires n <= |s|
    ensures -1 <= i < n
  {
    if n == 0 then -1
    else if s[n - 1] == c then n - 1
    else LastIndex(s, c, n - 1)
  }

  /** `LastIndex` finds an occurrence of `c` with none after it, and is the
      only index that does. */
  lemma {:induction false} LastIndexSpec(s: string, c: char, n: nat, j: int)
    requires n <= |s| && -1 <= j < n
    ensures LastIndex(s, c, n) == j <==>
      (j >= 0 ==> s[j] == c) && (forall k :: j < k < n ==> s[k] != c)
  {
    if n > 0 && s[n - 1] != c && j < n - 1 {
      LastIndexSpec(s, c, n - 1, j);
    }
  }

  /** `PurePath(p).name`: the part of `p` after its last `/`. */
  function Name(p: string): string
  {
    p[LastIndex(p, '/', |p|) + 1..]
  }

  /** The name is the longest `/`-free tail of the path. */
  lemma NameSpec(p: string)
    ensures var r := Name(p);
      && |r| <= |p| && r == p[|p| - |r|..]
      && '/' !in r
      && (|r| < |p| ==> p[|p| - |r| - 1] == '/')
  {
    var i := LastIndex(p, '/', |p|);
    LastIndexSpec(p, '/', |p|, i);
    var r := Name(p);
    forall k | 0 <= k < |r| ensures r[k] != '/' {
      assert r[k] == p[i + 1 + k];
    }
  }

  /** Index of the last `.` in `s`, or -1 (`str.rfind('.')`). */
  function LastDot(s: string): int
  {
    LastIndex(s, '.', |s|)
  }

  /** `PurePath.suffix` of a file name: from its last `.` on, unless that
      dot is the first or the last character. */
  function Suffix(name: string): string
  {
    var i := LastDot(name);
    if 0 < i < |name| - 1 then name[i..] else ""
  }

  /** `PurePath.stem` of a file name: the name without its suffix. */
  function Stem(name: string): string
  {
    var i := LastDot(name);
    if 0 < i < |name| - 1 then name[..i] else name
  }

  /** A name is its stem followed by its suffix; a non-empty suffix is a
      dot followed by at least one character and no further dot. */
  lemma StemSuffix(name: string)
    ensures Stem(name) + Suffix(name) == name
    ensures Suffix(name) != [] ==>
      |Suffix(name)| >= 2 && Suffix(name)[0] == '.' && '.' !in Suffix(name)[1..] && Stem(name) != []
  {
    var i := LastDot(name);
    LastIndexSpec(name, '.', |name|, i);
    if 0 < i < |name| - 1 {
      assert name[..i] + name[i..] == name;
      var suf := name[i..];
      forall k | 1 <= k < |suf| ensures suf[k] != '.' {
        assert suf[k] == name[i + k];
      }
    }
  }
}
