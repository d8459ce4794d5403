/** String operations of the JavaScript runtime that the note pipeline relies on:
    ASCII lower-casing, substring search (`includes`), `split` on one character,
    `split(/\s+/)`, `join`, `trim`, and the decimal rendering of a count. */
module Text {

  // ---------------------------------------------------------------- lower-casing

  /** `toLowerCase` restricted to ASCII: only 'A'..'Z' change. */
  function LowerChar(c: char): (l: char)
    ensures 'A' <= c <= 'Z' ==> 'a' <= l <= 'z' && l as int == c as int + 32
    ensures !('A' <= c <= 'Z') ==> l == c
  {
    if 'A' <= c <= 'Z' then (c as int + 32) as char else c
  }

  predicate IsUpper(c: char) { 'A' <= c <= 'Z' }

  function Lower(s: string): (r: string)
    ensures |r| == |s|
    ensures forall i :: 0 <= i < |s| ==> r[i] == LowerChar(s[i])
    ensures forall i :: 0 <= i < |r| ==> !IsUpper(r[i])
  {
    seq(|s|, i requires 0 <= i < |s| => LowerChar(s[i]))
  }

  lemma LowerConcat(a: string, b: string)
    ensures Lower(a + b) == Lower(a) + Lower(b)
  {
  }

  // ---------------------------------------------------------------- substring search

  predicate IsPrefix(p: string, s: string) { |p| <= |s| && s[..|p|] == p }

  /** `sub` occurs in `s` starting at index `i`. */
  ghost predicate OccursAt(s: string, sub: string, i: int)
  {
    0 <= i && i + |sub| <= |s| && s[i..i + |sub|] == sub
  }

  /** `String.prototype.includes`: the empty string is included in every string. */
  predicate Includes(s: string, sub: string)
    decreases |s|
  {
    IsPrefix(sub, s) || (|s| > 0 && Includes(s[1..], sub))
  }

  /** An occurrence at some position makes `Includes` hold. */
  lemma {:induction false} OccursIncludes(s: string, sub: string, i: int)
    requires OccursAt(s, sub, i)
    ensures Includes(s, sub)
    decreases i
  {
    if i > 0 {
      assert s[1..][i - 1..i - 1 + |sub|] == s[i..i + |sub|];
      OccursIncludes(s[1..], sub, i - 1);
    }
  }

  /** `Includes` holds only when `sub` occurs at some position. */
  lemma {:induction false} IncludesOccurs(s: string, sub: string) returns (i: int)
    requires Includes(s, sub)
    ensures OccursAt(s, sub, i)
    decreases |s|
  {
    if IsPrefix(sub, s) {
      i := 0;
    } else {
      var j := IncludesOccurs(s[1..], sub);
      assert s[j + 1..j + 1 + |sub|] == s[1..][j..j + |sub|];
      i := j + 1;
    }
  }

  /** `Includes` holds exactly when `sub` occurs at some position of `s`. */
  lemma IncludesIff(s: string, sub: string)
    ensures Includes(s, sub) <==> exists i :: OccursAt(s, sub, i)
  {
    if Includes(s, sub) {
      var i := IncludesOccurs(s, sub);
    } else {
      forall i | OccursAt(s, sub, i) ensures false {
        OccursIncludes(s, sub, i);
      }
    }
  }

  /** Whatever is placed between two strings is included in the result. */
  lemma IncludesMiddle(a: string, b: string, c: string)
    ensures Includes(a + b + c, b)
  {
    assert (a + b + c)[|a|..|a| + |b|] == b;
    OccursIncludes(a + b + c, b, |a|);
  }

  /** A string is never included in a shorter one. */
  lemma IncludesNotLonger(s: string, sub: string)
    requires Includes(s, sub)
    ensures |sub| <= |s|
  {
    var i := IncludesOccurs(s, sub);
  }

  /** A longer string is never a substring. */
  lemma NotIncludesLonger(s: string, sub: string)
    requires |sub| > |s|
    ensures !Includes(s, sub)
  {
    if Includes(s, sub) {
      IncludesNotLonger(s, sub);
    }
  }

  // ---------------------------------------------------------------- split and join

  /** `Array.prototype.join`: the empty list joins to "". */
  function Join(parts: seq<string>, sep: string): string
  {
    if |parts| == 0 then "" else if |parts| == 1 then parts[0] else parts[0] + sep + Join(parts[1..], sep)
  }

  /** `String.prototype.split(d)` for a one-character separator `d`: the result is never
      empty ("" splits to [""]), and each separator starts a new piece, so two adjacent
      separators produce an empty piece. */
  function Split(s: string, d: char): (parts: seq<string>)
    ensures |parts| >= 1
    ensures forall k :: 0 <= k < |parts| ==> d !in parts[k]
  {
    if |s| == 0 then [""]
    else if s[0] == d then [""] + Split(s[1..], d)
    else
      var rest := Split(s[1..], d);
      [[s[0]] + rest[0]] + rest[1..]
  }

  lemma JoinExtendFirst(x: string, parts: seq<string>, sep: string)
    requires |parts| >= 1
    ensures Join([x + parts[0]] + parts[1..], sep) == x + Join(parts, sep)
  {
    var p := [x + parts[0]] + parts[1..];
    assert p[1..] == parts[1..];
  }

  /** Splitting and joining back with the same separator gives the original string. */
  lemma {:induction false} JoinSplit(s: string, d: char)
    ensures Join(Split(s, d), [d]) == s
  {
    if |s| == 0 {
    } else if s[0] == d {
      var rest := Split(s[1..], d);
      JoinSplit(s[1..], d);
      assert ([""] + rest)[1..] == rest;
      assert s == [d] + s[1..];
    } else {
      var rest := Split(s[1..], d);
      JoinSplit(s[1..], d);
      JoinExtendFirst([s[0]], rest, [d]);
      assert s == [s[0]] + s[1..];
    }
  }

  lemma {:induction false} SplitPrefix(p: string, rest: string, d: char)
    requires d !in p
    ensures var r := Split(rest, d); Split(p + rest, d) == [p + r[0]] + r[1..]
  {
    if |p| == 0 {
      assert p + rest == rest;
      var r := Split(rest, d);
      assert p + r[0] == r[0];
      assert [p + r[0]] + r[1..] == r;
    } else {
      var s := p + rest;
      var r := Split(rest, d);
      assert s[0] == p[0] && s[1..] == p[1..] + rest;
      assert p[0] in p;
      SplitPrefix(p[1..], rest, d);
      var inner := Split(s[1..], d);
      assert inner == [p[1..] + r[0]] + r[1..];
      assert Split(s, d) == [[p[0]] + inner[0]] + inner[1..];
      assert [p[0]] + (p[1..] + r[0]) == p + r[0];
      assert inner[1..] == r[1..];
    }
  }

  /** Joining pieces that do not contain the separator and splitting again gives the pieces back. */
  lemma {:induction false} SplitJoin(parts: seq<string>, d: char)
    requires |parts| >= 1
    requires forall k :: 0 <= k < |parts| ==> d !in parts[k]
    ensures Split(Join(parts, [d]), d) == parts
  {
    if |parts| == 1 {
      SplitPrefix(parts[0], "", d);
      assert parts[0] + "" == parts[0];
      assert Split("", d) == [""];
      assert Join(parts, [d]) == parts[0];
      assert parts == [parts[0] + ""] + [""][1..];
    } else {
      var tail := Join(parts[1..], [d]);
      SplitJoin(parts[1..], d);
      assert Join(parts, [d]) == parts[0] + ([d] + tail);
      SplitPrefix(parts[0], [d] + tail, d);
      var r := Split([d] + tail, d);
      assert ([d] + tail)[1..] == tail;
      assert r == [""] + parts[1..];
      assert r[0] == "" && r[1..] == parts[1..];
      assert parts[0] + r[0] == parts[0];
      assert parts == [parts[0]] + parts[1..];
    }
  }

  /** A string without the separator splits to itself alone. */
  lemma SplitNone(p: string, d: char)
    requires d !in p
    ensures Split(p, d) == [p]
  {
    SplitPrefix(p, "", d);
    assert p + "" == p;
  }

  /** Splitting at one occurrence of the separator splits the two sides independently. */
  lemma {:induction false} SplitConcat(x: string, z: string, d: char)
    ensures Split(x + [d] + z, d) == Split(x, d) + Split(z, d)
    decreases |x|
  {
    var s := x + [d] + z;
    if |x| == 0 {
      assert s == [d] + z && s[1..] == z;
    } else if x[0] == d {
      assert s[0] == d && s[1..] == x[1..] + [d] + z;
      SplitConcat(x[1..], z, d);
    } else {
      SplitConcatStep(x, z, d);
    }
  }

  lemma {:induction false} SplitConcatStep(x: string, z: string, d: char)
    requires |x| > 0 && x[0] != d
    ensures Split(x + [d] + z, d) == Split(x, d) + Split(z, d)
    decreases |x|, 0
  {
    var s := x + [d] + z;
    assert s[0] == x[0] && s[1..] == x[1..] + [d] + z;
    SplitConcat(x[1..], z, d);
    ExtendHeadConcat([x[0]], Split(x[1..], d), Split(z, d));
  }

  /** Extending the first piece of `a + b` extends the first piece of `a`. */
  lemma ExtendHeadConcat(h: string, a: seq<string>, b: seq<string>)
    requires |a| >= 1
    ensures [h + (a + b)[0]] + (a + b)[1..] == ([h + a[0]] + a[1..]) + b
  {
    assert (a + b)[0] == a[0];
    assert (a + b)[1..] == a[1..] + b;
  }

  // ---------------------------------------------------------------- whitespace

  /** The code points that the ECMAScript `\s` class and `String.prototype.trim` treat as
      white space: the WhiteSpace and LineTerminator productions of ECMA-262. */
  predicate IsSpace(c: char)
  {
    ('\t' <= c <= '\r') || c == ' ' || c == '\U{00A0}' || c == '\U{1680}'
    || ('\U{2000}' <= c <= '\U{200A}') || c == '\U{2028}' || c == '\U{2029}'
    || c == '\U{202F}' || c == '\U{205F}' || c == '\U{3000}' || c == '\U{FEFF}'
  }

  predicate NoSpace(s: string) { forall i :: 0 <= i < |s| ==> !IsSpace(s[i]) }

  /** The end of the run of white space of `s` that starts at `i`. */
  function SpacesFrom(s: string, i: nat): (j: nat)
    requires i <= |s|
    ensures i <= j <= |s|
    ensures forall k :: i <= k < j ==> IsSpace(s[k])
    ensures j == |s| || !IsSpace(s[j])
    decreases |s| - i
  {
    if i < |s| && IsSpace(s[i]) then SpacesFrom(s, i + 1) else i
  }

  /** The start of the run of white space of `s` that ends at `j`. */
  function SpacesBefore(s: string, j: nat): (i: nat)
    requires j <= |s|
    ensures i <= j
    ensures forall k :: i <= k < j ==> IsSpace(s[k])
    ensures i == 0 || !IsSpace(s[i - 1])
  {
    if j > 0 && IsSpace(s[j - 1]) then SpacesBefore(s, j - 1) else j
  }

  /** Drops the white space at the front of `s`. */
  function TrimStart(s: string): (r: string)
    ensures |r| <= |s| && r == s[|s| - |r|..]
    ensures forall i :: 0 <= i < |s| - |r| ==> IsSpace(s[i])
    ensures |s| > 0 && IsSpace(s[0]) ==> |r| < |s|
    ensures r == [] || !IsSpace(r[0])
  {
    s[SpacesFrom(s, 0)..]
  }

  /** Drops the white space at the end of `s`. */
  function TrimEnd(s: string): (r: string)
    ensures |r| <= |s| && r == s[..|r|]
    ensures forall i :: |r| <= i < |s| ==> IsSpace(s[i])
    ensures r == [] || !IsSpace(r[|r| - 1])
  {
    s[..SpacesBefore(s, |s|)]
  }

  /** `String.prototype.trim`. */
  function Trim(s: string): string
  {
    TrimEnd(TrimStart(s))
  }

  /** The trimmed string is `s` with a white-space prefix of length `k` and a white-space
      suffix removed. */
  lemma TrimSpec(s: string) returns (k: nat)
    ensures var r := Trim(s);
      k + |r| <= |s| && s[k..k + |r|] == r
      && (forall i :: 0 <= i < k ==> IsSpace(s[i]))
      && (forall i :: k + |r| <= i < |s| ==> IsSpace(s[i]))
  {
    k := |s| - |TrimStart(s)|;
    TrimInside(s);
    TrimTrailing(s);
  }

  lemma TrimInside(s: string)
    ensures var k, r := |s| - |TrimStart(s)|, Trim(s); k + |r| <= |s| && s[k..k + |r|] == r
  {
    var t := TrimStart(s);
    PrefixOfSuffix(s, t, TrimEnd(t));
  }

  lemma TrimTrailing(s: string)
    ensures var k, r := |s| - |TrimStart(s)|, Trim(s);
      forall i :: k + |r| <= i < |s| ==> IsSpace(s[i])
  {
    var t := TrimStart(s);
    SpacesAfterPrefix(s, t, TrimEnd(t));
  }

  /** A prefix `r` of a suffix `t` of `s` is the slice of `s` where `t` starts. */
  lemma PrefixOfSuffix(s: string, t: string, r: string)
    requires |t| <= |s| && t == s[|s| - |t|..]
    requires |r| <= |t| && r == t[..|r|]
    ensures s[|s| - |t|..|s| - |t| + |r|] == r
  {
  }

  /** White space after the prefix `r` of the suffix `t` of `s` is white space of `s`. */
  lemma SpacesAfterPrefix(s: string, t: string, r: string)
    requires |t| <= |s| && t == s[|s| - |t|..]
    requires |r| <= |t| && forall i :: |r| <= i < |t| ==> IsSpace(t[i])
    ensures forall i :: |s| - |t| + |r| <= i < |s| ==> IsSpace(s[i])
  {
    var k := |s| - |t|;
    forall i | k + |r| <= i < |s| ensures IsSpace(s[i]) {
      assert s[i] == t[i - k];
    }
  }

  /** The trimmed string neither starts nor ends with white space. */
  lemma TrimEnds(s: string)
    ensures var r := Trim(s); r == [] || (!IsSpace(r[0]) && !IsSpace(r[|r| - 1]))
  {
    var t := TrimStart(s);
    var r := TrimEnd(t);
    assert r != [] ==> r[0] == t[0];
  }

  /** A string without leading or trailing white space is its own trim. */
  lemma TrimUnchanged(s: string)
    requires s == [] || (!IsSpace(s[0]) && !IsSpace(s[|s| - 1]))
    ensures Trim(s) == s
  {
  }

  /** Trimming is idempotent. */
  lemma TrimIdempotent(s: string)
    ensures Trim(Trim(s)) == Trim(s)
  {
    TrimEnds(s);
    TrimUnchanged(Trim(s));
  }

  /** `String.prototype.split(/\s+/)`: every maximal run of white space separates two pieces;
      leading white space yields an empty first piece, trailing white space an empty last one,
      and "" splits to [""]. */
  function SplitSpaces(s: string): (parts: seq<string>)
    ensures |parts| >= 1
    ensures forall k :: 0 <= k < |parts| ==> NoSpace(parts[k])
    decreases |s|
  {
    if |s| == 0 then [""]
    else if IsSpace(s[0]) then [""] + SplitSpaces(TrimStart(s))
    else
      var rest := SplitSpaces(s[1..]);
      [[s[0]] + rest[0]] + rest[1..]
  }

  /** Every piece of `SplitSpaces(s)` occurs in `s`. */
  lemma {:induction false} SplitSpacesPiecesOccur(s: string, k: nat)
    requires k < |SplitSpaces(s)|
    ensures Includes(s, SplitSpaces(s)[k])
    decreases |s|, 1
  {
    if k == 0 {
      SplitSpacesFirstIsPrefix(s);
    } else if IsSpace(s[0]) {
      SplitSpacesLaterPieceAfterSpace(s, k);
    } else {
      SplitSpacesLaterPieceAfterLetter(s, k);
    }
  }

  lemma {:induction false} SplitSpacesLaterPieceAfterSpace(s: string, k: nat)
    requires 0 < k < |SplitSpaces(s)| && IsSpace(s[0])
    ensures Includes(s, SplitSpaces(s)[k])
    decreases |s|, 0
  {
    var t := TrimStart(s);
    var piece := SplitSpaces(s)[k];
    assert piece == SplitSpaces(t)[k - 1];
    SplitSpacesPiecesOccur(t, k - 1);
    IncludesInSuffix(s, |s| - |t|, piece);
  }

  lemma {:induction false} SplitSpacesLaterPieceAfterLetter(s: string, k: nat)
    requires 0 < k < |SplitSpaces(s)| && !IsSpace(s[0])
    ensures Includes(s, SplitSpaces(s)[k])
    decreases |s|, 0
  {
    var piece := SplitSpaces(s)[k];
    assert piece == SplitSpaces(s[1..])[k];
    SplitSpacesPiecesOccur(s[1..], k);
    IncludesInSuffix(s, 1, piece);
  }

  /** A substring of a suffix is a substring of the whole. */
  lemma {:induction false} IncludesInSuffix(s: string, j: nat, sub: string)
    requires j <= |s| && Includes(s[j..], sub)
    ensures Includes(s, sub)
    decreases j
  {
    if j > 0 {
      assert s[1..][j - 1..] == s[j..];
      IncludesInSuffix(s[1..], j - 1, sub);
    }
  }
  /** Whatever occurs in `s` occurs in `p + s`, which starts with `p`. */
  lemma IncludesAfter(p: string, s: string, sub: string)
    requires Includes(s, sub)
    ensures IsPrefix(p, p + s) && Includes(p + s, sub)
  {
    assert (p + s)[..|p|] == p;
    assert (p + s)[|p|..] == s;
    IncludesInSuffix(p + s, |p|, sub);
  }


  /** The first piece of `SplitSpaces(s)` is a prefix of `s`. */
  lemma {:induction false} SplitSpacesFirstIsPrefix(s: string)
    ensures IsPrefix(SplitSpaces(s)[0], s)
    decreases |s|
  {
    if |s| > 0 && !IsSpace(s[0]) {
      SplitSpacesFirstIsPrefix(s[1..]);
    }
  }

  /** `p` occurs in `s` at `i` as a whole white-space delimited run: preceded by white space
      or the start of `s`, and followed by white space or the end of `s`. */
  ghost predicate DelimitedAt(s: string, p: string, i: int)
  {
    OccursAt(s, p, i) && (i == 0 || IsSpace(s[i - 1])) && (i + |p| == |s| || IsSpace(s[i + |p|]))
  }

  /** Every piece of `SplitSpaces(s)` is a whole white-space delimited run of `s`: the first
      piece starts at index 0, every later one right after white space. */
  lemma {:induction false} PieceDelimited(s: string, k: nat) returns (i: nat)
    requires k < |SplitSpaces(s)|
    ensures DelimitedAt(s, SplitSpaces(s)[k], i)
    ensures k == 0 ==> i == 0
    ensures k > 0 ==> i > 0 && IsSpace(s[i - 1])
    decreases |s|, 1
  {
    if k == 0 {
      FirstPieceDelimited(s);
      i := 0;
    } else if IsSpace(s[0]) {
      i := LaterPieceAfterSpace(s, k);
    } else {
      i := LaterPieceAfterLetter(s, k);
    }
  }

  lemma {:induction false} FirstPieceDelimited(s: string)
    ensures DelimitedAt(s, SplitSpaces(s)[0], 0)
    decreases |s|
  {
    if |s| > 0 && !IsSpace(s[0]) {
      var t := s[1..];
      FirstPieceDelimited(t);
      var p := SplitSpaces(t)[0];
      assert SplitSpaces(s)[0] == [s[0]] + p;
      assert s[..1 + |p|] == [s[0]] + t[..|p|];
      if 1 + |p| < |s| { assert t[|p|] == s[1 + |p|]; }
    }
  }

  lemma {:induction false} LaterPieceAfterSpace(s: string, k: nat) returns (i: nat)
    requires 0 < k < |SplitSpaces(s)| && IsSpace(s[0])
    ensures DelimitedAt(s, SplitSpaces(s)[k], i) && i > 0 && IsSpace(s[i - 1])
    decreases |s|, 0
  {
    var n := LaterPieceOfSpaceLed(s, k);
    var t := s[n..];
    var i' := PieceDelimited(t, k - 1);
    i := ShiftAfterSpace(s, n, t, SplitSpaces(t)[k - 1], i');
  }

  /** A delimited run of the text after white space at `n - 1` is a delimited run of the
      whole text, preceded by white space. */
  lemma ShiftAfterSpace(s: string, n: nat, t: string, p: string, i': nat) returns (i: nat)
    requires 0 < n <= |s| && IsSpace(s[n - 1]) && t == s[n..] && DelimitedAt(t, p, i')
    ensures DelimitedAt(s, p, i) && i > 0 && IsSpace(s[i - 1])
  {
    DelimitedShift(s, n, p, i');
    i := n + i';
  }

  /** In a string that starts with white space, piece `k > 0` is piece `k - 1` of what follows
      the leading run of white space. */
  lemma LaterPieceOfSpaceLed(s: string, k: nat) returns (n: nat)
    requires 0 < k < |SplitSpaces(s)| && IsSpace(s[0])
    ensures 0 < n <= |s| && IsSpace(s[n - 1])
    ensures k - 1 < |SplitSpaces(s[n..])| && SplitSpaces(s)[k] == SplitSpaces(s[n..])[k - 1]
  {
    n := SpacesFrom(s, 0);
    assert SplitSpaces(s) == [""] + SplitSpaces(s[n..]);
  }

  lemma {:induction false} LaterPieceAfterLetter(s: string, k: nat) returns (i: nat)
    requires 0 < k < |SplitSpaces(s)| && !IsSpace(s[0])
    ensures DelimitedAt(s, SplitSpaces(s)[k], i) && i > 0 && IsSpace(s[i - 1])
    decreases |s|, 0
  {
    var rest := SplitSpaces(s[1..]);
    assert SplitSpaces(s)[k] == rest[k];
    var i' := PieceDelimited(s[1..], k);
    i := i' + 1;
    DelimitedShift(s, 1, rest[k], i');
  }

  /** Each piece of `SplitSpaces(s)` cuts `s` into the text before it, itself and the text
      after it, with white space (or nothing) on either side. */
  lemma PieceCut(s: string, k: nat) returns (before: string, after: string)
    requires k < |SplitSpaces(s)|
    ensures s == before + SplitSpaces(s)[k] + after
    ensures before == "" || IsSpace(before[|before| - 1])
    ensures after == "" || IsSpace(after[0])
  {
    var p := SplitSpaces(s)[k];
    var i := PieceDelimited(s, k);
    before, after := s[..i], s[i + |p|..];
    assert s == before + p + after;
    if i > 0 { assert before[|before| - 1] == s[i - 1]; }
    if after != "" { assert after[0] == s[i + |p|]; }
  }

  /** A delimited occurrence in the suffix `s[j..]` is one in `s`, provided it does not start
      the suffix or the suffix follows white space. */
  lemma DelimitedShift(s: string, j: nat, p: string, i: nat)
    requires 0 < j <= |s| && DelimitedAt(s[j..], p, i)
    requires i > 0 || IsSpace(s[j - 1])
    ensures DelimitedAt(s, p, j + i) && (i > 0 ==> IsSpace(s[j + i - 1]))
  {
    var t := s[j..];
    assert t[i..i + |p|] == s[j + i..j + i + |p|];
    if i > 0 { assert t[i - 1] == s[j + i - 1]; }
    if i + |p| < |t| { assert t[i + |p|] == s[j + i + |p|]; }
  }

  /** A white-space free `w` followed by nothing or by white space is the first piece. */
  lemma {:induction false} SplitSpacesFirstWord(w: string, b: string)
    requires NoSpace(w) && (b == "" || IsSpace(b[0]))
    ensures SplitSpaces(w + b)[0] == w
    decreases |w|
  {
    if w == "" {
      assert w + b == b;
    } else {
      assert (w + b)[0] == w[0] && (w + b)[1..] == w[1..] + b;
      SplitSpacesFirstWord(w[1..], b);
      assert w == [w[0]] + w[1..];
    }
  }

  /** What follows white space and starts with a non-space character begins a later piece:
      the first piece of `t` is piece `k >= 1` of `a + t`. */
  lemma {:induction false} SplitSpacesAfterSpace(a: string, t: string) returns (k: nat)
    requires a != "" && IsSpace(a[|a| - 1]) && t != "" && !IsSpace(t[0])
    ensures 1 <= k < |SplitSpaces(a + t)| && SplitSpaces(a + t)[k] == SplitSpaces(t)[0]
    decreases |a|, 1
  {
    if IsSpace(a[0]) {
      k := SplitSpacesAfterLeadingSpace(a, t);
    } else {
      k := SplitSpacesAfterLeadingLetter(a, t);
    }
  }

  lemma {:induction false} SplitSpacesAfterLeadingSpace(a: string, t: string) returns (k: nat)
    requires a != "" && IsSpace(a[|a| - 1]) && t != "" && !IsSpace(t[0]) && IsSpace(a[0])
    ensures 1 <= k < |SplitSpaces(a + t)| && SplitSpaces(a + t)[k] == SplitSpaces(t)[0]
    decreases |a|, 0
  {
    var s := a + t;
    var n := SpacesRunInside(a, t);
    if n == |a| {
      assert s[n..] == t;
      k := 1;
    } else {
      assert s[n..] == a[n..] + t;
      var k' := SplitSpacesAfterSpace(a[n..], t);
      k := k' + 1;
    }
  }

  /** The white space that starts `a + t` ends inside `a` when `t` starts with a non-space
      character, and `SplitSpaces` starts an empty piece and goes on after it. */
  lemma SpacesRunInside(a: string, t: string) returns (n: nat)
    requires a != "" && IsSpace(a[0]) && t != "" && !IsSpace(t[0])
    ensures 0 < n <= |a| && n == SpacesFrom(a + t, 0)
    ensures SplitSpaces(a + t) == [""] + SplitSpaces((a + t)[n..])
  {
    var s := a + t;
    assert s[|a|] == t[0] && s[0] == a[0];
    n := SpacesFrom(s, 0);
  }

  lemma {:induction false} SplitSpacesAfterLeadingLetter(a: string, t: string) returns (k: nat)
    requires a != "" && IsSpace(a[|a| - 1]) && t != "" && !IsSpace(t[0]) && !IsSpace(a[0])
    ensures 1 <= k < |SplitSpaces(a + t)| && SplitSpaces(a + t)[k] == SplitSpaces(t)[0]
    decreases |a|, 0
  {
    var s := a + t;
    assert s[0] == a[0] && s[1..] == a[1..] + t;
    k := SplitSpacesAfterSpace(a[1..], t);
    var rest := SplitSpaces(s[1..]);
    assert SplitSpaces(s) == [[s[0]] + rest[0]] + rest[1..];
  }

  /** A non-empty, white-space free `w` with white space (or an end of the string) on both
      sides is one of the pieces. */
  lemma SplitSpacesHasWord(a: string, w: string, b: string)
    requires NoSpace(w) && w != ""
    requires a == "" || IsSpace(a[|a| - 1])
    requires b == "" || IsSpace(b[0])
    ensures w in SplitSpaces(a + w + b)
  {
    var t := w + b;
    SplitSpacesFirstWord(w, b);
    assert a + w + b == a + t;
    if a == "" {
      assert a + t == t;
    } else {
      assert t[0] == w[0];
      WordAfterSpace(a, w, t);
    }
  }

  /** A word that is the first piece of `t` is a piece of `a + t` when `a` ends in white space. */
  lemma WordAfterSpace(a: string, w: string, t: string)
    requires a != "" && IsSpace(a[|a| - 1]) && w != "" && !IsSpace(w[0])
    requires |w| <= |t| && t[0] == w[0] && SplitSpaces(t)[0] == w
    ensures w in SplitSpaces(a + t)
  {
    var k := SplitSpacesAfterSpace(a, t);
  }

  // ---------------------------------------------------------------- decimal numbers

  predicate IsDigit(c: char) { '0' <= c <= '9' }

  function DigitChar(d: nat): (c: char)
    requires d < 10
    ensures IsDigit(c) && c as int - '0' as int == d
  {
    ('0' as int + d) as char
  }

  /** The value of a string of decimal digits. */
  function DecimalValue(s: string): nat
    requires forall i :: 0 <= i < |s| ==> IsDigit(s[i])
  {
    if s == [] then 0
    else
      assert IsDigit(s[|s| - 1]);
      DecimalValue(s[..|s| - 1]) * 10 + (s[|s| - 1] as int - '0' as int)
  }

  /** The decimal rendering of a natural number, as in a template literal `${n}`. */
  function NatToString(n: nat): (r: string)
    ensures |r| >= 1
    ensures forall i :: 0 <= i < |r| ==> IsDigit(r[i])
    ensures r[0] == '0' ==> n == 0
  {
    if n < 10 then [DigitChar(n)] else NatToString(n / 10) + [DigitChar(n % 10)]
  }

  /** Reading the rendered digits back gives the number. */
  lemma {:induction false} NatToStringValue(n: nat)
    ensures DecimalValue(NatToString(n)) == n
  {
    if n >= 10 {
      NatToStringValue(n / 10);
      var r := NatToString(n);
      assert r[..|r| - 1] == NatToString(n / 10);
    }
  }
}
