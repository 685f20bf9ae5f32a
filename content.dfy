/** The text transformations of `Module.parse` (lib/modules.js): carriage-return removal,
  * whitespace trimming, comment masking, the `require(...)` scanner and the rewrite of
  * resolved specifiers to module ids. */
module Content {
  import opened Wrappers
  import opened Text

  // ---------------------------------------------------------------------------
  // Normalisation: `.replace(/\r+/g, '')` and `.replace(/^\s+|[ \t]+(?=\n)|\s+$/g, '')`

  /** The text with every carriage return removed and nothing else changed. */
  function RemoveCR(s: string): (r: string)
    ensures '\r' !in r
    ensures |r| <= |s|
    ensures '\r' !in s ==> r == s
  {
    if s == [] then []
    else if s[0] == '\r' then RemoveCR(s[1..])
    else [s[0]] + RemoveCR(s[1..])
  }

  /** Removal works character by character: it distributes over concatenation, and drops a
    * lone character exactly when it is a carriage return. */
  lemma {:induction false} RemoveCRAppend(a: string, b: string)
    ensures RemoveCR(a + b) == RemoveCR(a) + RemoveCR(b)
    decreases |a|
  {
    if a == [] {
      assert a + b == b;
    } else {
      assert (a + b)[1..] == a[1..] + b;
      RemoveCRAppend(a[1..], b);
    }
  }

  lemma RemoveCRChar(c: char)
    ensures RemoveCR([c]) == if c == '\r' then [] else [c]
  {
    assert [c][1..] == [];
    assert RemoveCR([]) == [];
  }

  predicate AllSpace(s: string)
  {
    forall k :: 0 <= k < |s| ==> IsSpace(s[k])
  }

  lemma AllSpaceCons(s: string)
    requires s != []
    ensures AllSpace(s) <==> IsSpace(s[0]) && AllSpace(s[1..])
  {
    assert forall k :: 1 <= k < |s| ==> s[k] == s[1..][k - 1];
  }

  predicate IsBlank(c: char)
  {
    c == ' ' || c == '\t'
  }

  /** `^\s+`: the text after its leading white space. */
  function DropLeadingSpace(s: string): (r: string)
    ensures r == [] || !IsSpace(r[0])
    ensures |r| <= |s| && r == s[|s| - |r|..]
  {
    if s != [] && IsSpace(s[0]) then DropLeadingSpace(s[1..]) else s
  }

  /** Length of the run of spaces and tabs that starts `s`. */
  function BlankRun(s: string): (n: nat)
    ensures n <= |s|
    ensures forall k :: 0 <= k < n ==> IsBlank(s[k])
    ensures n < |s| ==> !IsBlank(s[n])
  {
    if s != [] && IsBlank(s[0]) then 1 + BlankRun(s[1..]) else 0
  }

  /** The global replace from a position past the start of the text: a run of spaces and
    * tabs followed by a newline goes, white space reaching the end goes, the rest stays. */
  function TrimRest(s: string): (r: string)
    decreases |s|
  {
    if s == [] then []
    else
      var n := BlankRun(s);
      if n > 0 && n < |s| && s[n] == '\n' then TrimRest(s[n..])
      else if IsSpace(s[0]) && AllSpace(s) then []
      else [s[0]] + TrimRest(s[1..])
  }

  /** The trimmed text `parse` keeps. */
  function Trim(s: string): string
  {
    TrimRest(DropLeadingSpace(s))
  }

  lemma {:induction false} TrimRestEmpty(s: string)
    ensures TrimRest(s) == [] ==> AllSpace(s)
    decreases |s|
  {
    if s != [] {
      var n := BlankRun(s);
      if n > 0 && n < |s| && s[n] == '\n' {
        TrimRestEmpty(s[n..]);
        assert forall k :: n <= k < |s| ==> s[k] == s[n..][k - n];
      }
    }
  }

  lemma {:induction false} TrimRestLast(s: string)
    ensures TrimRest(s) == [] || !IsSpace(TrimRest(s)[|TrimRest(s)| - 1])
    decreases |s|
  {
    if s != [] {
      var n := BlankRun(s);
      if n > 0 && n < |s| && s[n] == '\n' {
        TrimRestLast(s[n..]);
      } else if !(IsSpace(s[0]) && AllSpace(s)) {
        TrimRestLast(s[1..]);
        TrimRestEmpty(s[1..]);
        AllSpaceCons(s);
      }
    }
  }

  /** The kept blank at the head of `TrimRest(s)` is followed by the next character of `s`. */
  lemma TrimRestKeptBlank(s: string)
    requires |s| >= 2 && IsBlank(s[0])
    requires !(BlankRun(s) < |s| && s[BlankRun(s)] == '\n')
    requires !AllSpace(s)
    ensures TrimRest(s) == [s[0]] + TrimRest(s[1..])
    ensures s[1] != '\n'
    ensures TrimRest(s[1..]) != [] && TrimRest(s[1..])[0] == s[1]
  {
    var t := s[1..];
    var n := BlankRun(s);
    assert n >= 1;
    assert n < |s| by {
      assert forall k :: 0 <= k < n ==> IsSpace(s[k]);
    }
    assert t[0] == s[1];
    AllSpaceCons(s);
    if IsBlank(t[0]) {
      assert BlankRun(t) == n - 1;
      assert s[n] == t[n - 1];
    }
  }

  lemma {:induction false} TrimRestNoBlankBeforeNewline(s: string)
    ensures forall k :: 0 <= k < |TrimRest(s)| - 1 && TrimRest(s)[k + 1] == '\n' ==> !IsBlank(TrimRest(s)[k])
    decreases |s|
  {
    if s != [] {
      var n := BlankRun(s);
      if n > 0 && n < |s| && s[n] == '\n' {
        TrimRestNoBlankBeforeNewline(s[n..]);
      } else if !(IsSpace(s[0]) && AllSpace(s)) {
        TrimRestNoBlankBeforeNewline(s[1..]);
        var r := TrimRest(s);
        var t := TrimRest(s[1..]);
        assert r == [s[0]] + t;
        AllSpaceCons(s);
        if IsBlank(s[0]) && |r| >= 2 {
          TrimRestKeptBlank(s);
        }
        forall k | 0 <= k < |r| - 1 && r[k + 1] == '\n' ensures !IsBlank(r[k]) {
          if k > 0 {
            assert r[k] == t[k - 1] && r[k + 1] == t[k];
          }
        }
      }
    }
  }

  lemma TrimRestHead(s: string)
    requires s != [] && !IsSpace(s[0])
    ensures TrimRest(s) == [s[0]] + TrimRest(s[1..])
  {
  }

  /** What the trim promises: no white space at either end, and no space or tab
    * immediately before a newline. */
  lemma TrimShape(s: string)
    ensures Trim(s) == [] || (!IsSpace(Trim(s)[0]) && !IsSpace(Trim(s)[|Trim(s)| - 1]))
    ensures forall k :: 0 <= k < |Trim(s)| - 1 && Trim(s)[k + 1] == '\n' ==> !IsBlank(Trim(s)[k])
  {
    var d := DropLeadingSpace(s);
    if d != [] {
      TrimRestHead(d);
    }
    TrimRestLast(d);
    TrimRestNoBlankBeforeNewline(d);
  }

  /** The characters of `s` that are not white space, in order. */
  function NonSpace(s: string): (r: string)
    ensures forall k :: 0 <= k < |r| ==> !IsSpace(r[k])
  {
    if s == [] then [] else (if IsSpace(s[0]) then [] else [s[0]]) + NonSpace(s[1..])
  }

  lemma {:induction false} NonSpaceSkip(s: string, n: nat)
    requires n <= |s| && forall k :: 0 <= k < n ==> IsSpace(s[k])
    ensures NonSpace(s) == NonSpace(s[n..])
    decreases n
  {
    if n > 0 {
      NonSpaceSkip(s[1..], n - 1);
      assert s[1..][n - 1..] == s[n..];
    }
  }

  lemma {:induction false} TrimRestKeepsNonSpace(s: string)
    ensures NonSpace(TrimRest(s)) == NonSpace(s)
    decreases |s|
  {
    if s != [] {
      var n := BlankRun(s);
      if n > 0 && n < |s| && s[n] == '\n' {
        TrimRestKeepsNonSpace(s[n..]);
        NonSpaceSkip(s, n);
      } else if IsSpace(s[0]) && AllSpace(s) {
        NonSpaceSkip(s, |s|);
      } else {
        TrimRestKeepsNonSpace(s[1..]);
        assert ([s[0]] + TrimRest(s[1..]))[1..] == TrimRest(s[1..]);
      }
    }
  }

  /** The trim removes only white space: the other characters all stay, in order. */
  lemma TrimKeepsNonSpace(s: string)
    ensures NonSpace(Trim(s)) == NonSpace(s)
  {
    var d := DropLeadingSpace(s);
    TrimRestKeepsNonSpace(d);
    NonSpaceSkip(s, |s| - |d|) by {
      DropLeadingSpacePrefix(s);
    }
  }

  lemma {:induction false} DropLeadingSpacePrefix(s: string)
    ensures forall k :: 0 <= k < |s| - |DropLeadingSpace(s)| ==> IsSpace(s[k])
    decreases |s|
  {
    if s != [] && IsSpace(s[0]) {
      DropLeadingSpacePrefix(s[1..]);
      assert forall k :: 1 <= k < |s| ==> s[k] == s[1..][k - 1];
    }
  }

  /** The shape the trim produces: no white space at either end, and no space or tab
    * immediately before a newline. */
  ghost predicate Trimmed(s: string)
  {
    (s == [] || (!IsSpace(s[0]) && !IsSpace(s[|s| - 1]))) && NoBlankBeforeNewline(s)
  }

  ghost predicate NoBlankBeforeNewline(s: string)
  {
    forall k :: 0 < k < |s| && s[k] == '\n' ==> !IsBlank(s[k - 1])
  }

  lemma {:induction false} TrimRestFixed(s: string)
    requires s == [] || !IsSpace(s[|s| - 1])
    requires NoBlankBeforeNewline(s)
    ensures TrimRest(s) == s
    decreases |s|
  {
    if s != [] {
      var n := BlankRun(s);
      assert !(n > 0 && n < |s| && s[n] == '\n') by {
        assert 0 < n ==> IsBlank(s[n - 1]);
      }
      var last := s[|s| - 1];
      assert !AllSpace(s);
      var t := s[1..];
      assert NoBlankBeforeNewline(t) by {
        forall k | 0 < k < |t| && t[k] == '\n' ensures !IsBlank(t[k - 1]) {
          assert t[k] == s[k + 1] && t[k - 1] == s[k];
        }
      }
      TrimRestFixed(t);
      assert s == [s[0]] + t;
    }
  }

  /** Text that already has the trimmed shape is left as it is. */
  lemma TrimFixed(s: string)
    requires Trimmed(s)
    ensures Trim(s) == s
  {
    TrimRestFixed(s);
  }

  // ---------------------------------------------------------------------------
  // Comment masking: the first `content.replace(...)` of `parse`

  /** Every `\w` character replaced by `-`. */
  function Dashed(s: string): (r: string)
    ensures |r| == |s|
    ensures forall k :: 0 <= k < |s| ==> r[k] == (if IsWordChar(s[k]) then '-' else s[k])
  {
    seq(|s|, k requires 0 <= k < |s| => if IsWordChar(s[k]) then '-' else s[k])
  }

  /** End (exclusive) of a quoted literal whose body starts at `k`: a backslash escapes the
    * next character, an unescaped newline or the end of the text leaves it unclosed. */
  function StringEnd(t: string, q: char, k: nat): (r: Option<nat>)
    ensures r.Some? ==> k < r.value <= |t|
    decreases |t| - k
  {
    if k >= |t| then None
    else if t[k] == '\\' then (if k + 1 < |t| then StringEnd(t, q, k + 2) else None)
    else if t[k] == '\n' then None
    else if t[k] == q then Some(k + 1)
    else StringEnd(t, q, k + 1)
  }

  /** End (exclusive) of a block comment whose body starts at `k`: just past the first `*\/`. */
  function CommentClose(t: string, k: nat): (r: Option<nat>)
    ensures r.Some? ==> k + 2 <= r.value <= |t|
    decreases |t| - k
  {
    if k + 1 >= |t| then None
    else if t[k] == '*' && t[k + 1] == '/' then Some(k + 2)
    else CommentClose(t, k + 1)
  }

  /** `.*$` in multi-line mode: the first line terminator at or after `i`, or `|t|`. */
  function LineEnd(t: string, i: nat): (e: nat)
    requires i <= |t|
    ensures i <= e <= |t|
    ensures e < |t| ==> IsLineTerminator(t[e])
    ensures forall k :: i <= k < e ==> !IsLineTerminator(t[k])
    decreases |t| - i
  {
    if i == |t| || IsLineTerminator(t[i]) then i else LineEnd(t, i + 1)
  }

  /** Where the token that starts at `i` ends: a closed string literal, a `//` comment up
    * to the line end, a closed `/* */` comment, or else the single character at `i`. */
  function TokenEnd(t: string, i: nat): (e: nat)
    requires i < |t|
    ensures i < e <= |t|
  {
    if (t[i] == '\'' || t[i] == '"') && StringEnd(t, t[i], i + 1).Some? then StringEnd(t, t[i], i + 1).value
    else if t[i] == '/' && i + 1 < |t| && t[i + 1] == '/' then LineEnd(t, i)
    else if t[i] == '/' && i + 1 < |t| && t[i + 1] == '*' && CommentClose(t, i + 2).Some? then CommentClose(t, i + 2).value
    else i + 1
  }

  /** Whether the token at `i` is a comment, the only tokens the masking changes. */
  predicate OpensComment(t: string, i: nat)
    requires i < |t|
  {
    t[i] == '/' && i + 1 < |t| && (t[i + 1] == '/' || (t[i + 1] == '*' && CommentClose(t, i + 2).Some?))
  }

  /** `r` is a masked copy of the text from `i`: each character is the text's own or a
    * word character turned into `-`. */
  predicate MaskedAt(r: string, t: string, i: nat)
  {
    i + |r| <= |t| && forall k :: 0 <= k < |r| ==> r[k] == t[i + k] || (IsWordChar(t[i + k]) && r[k] == '-')
  }

  lemma MaskedConcat(a: string, b: string, t: string, i: nat)
    requires MaskedAt(a, t, i) && MaskedAt(b, t, i + |a|)
    ensures MaskedAt(a + b, t, i)
  {
  }

  lemma TokenMasked(t: string, i: nat, e: nat, dashed: bool)
    requires i <= e <= |t|
    ensures MaskedAt(if dashed then Dashed(t[i..e]) else t[i..e], t, i)
  {
  }

  /** The masked copy of `t[i..]`: string literals are passed over unchanged, and the word
    * characters of `//` and `/* */` comments become `-`. */
  function MaskFrom(t: string, i: nat): (r: string)
    requires i <= |t|
    ensures |r| == |t| - i
    decreases |t| - i
  {
    if i == |t| then []
    else
      var e := TokenEnd(t, i);
      (if OpensComment(t, i) then Dashed(t[i..e]) else t[i..e]) + MaskFrom(t, e)
  }

  /** Each token's masked copy keeps its characters or turns word characters into `-`. */
  lemma {:induction false} MaskFromMasked(t: string, i: nat)
    requires i <= |t|
    ensures MaskedAt(MaskFrom(t, i), t, i)
    decreases |t| - i
  {
    if i < |t| {
      var e := TokenEnd(t, i);
      MaskFromMasked(t, e);
      TokenMasked(t, i, e, OpensComment(t, i));
      MaskedConcat(if OpensComment(t, i) then Dashed(t[i..e]) else t[i..e], MaskFrom(t, e), t, i);
    }
  }


  /** The masked copy is as long as the text, has its newlines in the same places, and
    * differs only where a word character became `-`. */
  function Mask(t: string): (r: string)
    ensures |r| == |t|
    ensures forall k :: 0 <= k < |t| ==> r[k] == t[k] || (IsWordChar(t[k]) && r[k] == '-')
    ensures forall k :: 0 <= k < |t| ==> (r[k] == '\n' <==> t[k] == '\n')
  {
    MaskFromMasked(t, 0);
    MaskFrom(t, 0)
  }

  // Masking is decided token by token, so what it does to one token does not depend on
  // the text before it: the lemmas below state it for a comment or a literal anywhere.

  lemma {:induction false} LineEndShift(a: string, b: string, k: nat)
    requires k <= |b|
    ensures LineEnd(a + b, |a| + k) == |a| + LineEnd(b, k)
    decreases |b| - k
  {
    if k < |b| && !IsLineTerminator(b[k]) {
      LineEndShift(a, b, k + 1);
    }
  }

  lemma {:induction false} StringEndShift(a: string, b: string, q: char, k: nat)
    ensures StringEnd(a + b, q, |a| + k) ==
      if StringEnd(b, q, k).Some? then Some(|a| + StringEnd(b, q, k).value) else None
    decreases |b| - k
  {
    if k < |b| {
      if b[k] == '\\' {
        if k + 1 < |b| {
          StringEndShift(a, b, q, k + 2);
        }
      } else if b[k] != '\n' && b[k] != q {
        StringEndShift(a, b, q, k + 1);
      }
    }
  }

  lemma {:induction false} CommentCloseShift(a: string, b: string, k: nat)
    ensures CommentClose(a + b, |a| + k) ==
      if CommentClose(b, k).Some? then Some(|a| + CommentClose(b, k).value) else None
    decreases |b| - k
  {
    if k + 1 < |b| && !(b[k] == '*' && b[k + 1] == '/') {
      CommentCloseShift(a, b, k + 1);
    }
  }

  lemma TokenEndShift(a: string, b: string, k: nat)
    requires k < |b|
    ensures TokenEnd(a + b, |a| + k) == |a| + TokenEnd(b, k)
    ensures OpensComment(a + b, |a| + k) == OpensComment(b, k)
  {
    var t := a + b;
    assert t[|a| + k] == b[k];
    assert k + 1 < |b| ==> t[|a| + k + 1] == b[k + 1];
    StringEndShift(a, b, b[k], k + 1);
    LineEndShift(a, b, k);
    CommentCloseShift(a, b, k + 2);
  }

  lemma MaskFromUnfold(t: string, i: nat, e: nat, c: bool)
    requires i < |t| && e == TokenEnd(t, i) && c == OpensComment(t, i)
    ensures MaskFrom(t, i) == (if c then Dashed(t[i..e]) else t[i..e]) + MaskFrom(t, e)
  {
  }

  /** The masked copy of a text's tail does not depend on what precedes the tail. */
  lemma {:induction false} MaskShift(a: string, b: string, k: nat)
    requires k <= |b|
    ensures MaskFrom(a + b, |a| + k) == MaskFrom(b, k)
    decreases |b| - k
  {
    if k < |b| {
      var e := TokenEnd(b, k);
      TokenEndShift(a, b, k);
      MaskShift(a, b, e);
      MaskShiftStep(a, b, k, e, OpensComment(b, k));
    }
  }

  /** One token of `MaskShift`: the token at `k` ends at the same place in `b` and in
    * `a + b`, so its masked copy is the same in both. */
  lemma MaskShiftStep(a: string, b: string, k: nat, e: nat, c: bool)
    requires k < e <= |b| && e == TokenEnd(b, k) && c == OpensComment(b, k)
    requires TokenEnd(a + b, |a| + k) == |a| + e && OpensComment(a + b, |a| + k) == c
    requires MaskFrom(a + b, |a| + e) == MaskFrom(b, e)
    ensures MaskFrom(a + b, |a| + k) == MaskFrom(b, k)
  {
    var t := a + b;
    assert t[|a| + k..|a| + e] == b[k..e];
    MaskFromUnfold(t, |a| + k, |a| + e, c);
    MaskFromUnfold(b, k, e, c);
  }

  /** Text without quotes and slashes opens no token: it is kept, and the rest of the text
    * is masked as if it stood alone. */
  lemma PlainPrefixKept(a: string, b: string)
    requires forall k :: 0 <= k < |a| ==> !IsQuote(a[k]) && a[k] != '/'
    ensures Mask(a + b) == a + Mask(b)
  {
    PlainRunKept(a + b, 0, |a|);
    MaskShift(a, b, 0);
    assert (a + b)[0..|a|] == a;
  }

  lemma PlainStep(t: string, i: nat)
    requires i < |t| && !IsQuote(t[i]) && t[i] != '/'
    ensures MaskFrom(t, i) == [t[i]] + MaskFrom(t, i + 1)
  {
    assert TokenEnd(t, i) == i + 1 && !OpensComment(t, i);
    MaskFromUnfold(t, i, i + 1, false);
    assert t[i..i + 1] == [t[i]];
  }

  /** Whether `t[i..j]` holds neither a quote nor a slash, so that no token there is a
    * string or a comment. */
  predicate PlainSpan(t: string, i: nat, j: nat)
    requires i <= j <= |t|
  {
    forall k :: i <= k < j ==> !IsQuote(t[k]) && t[k] != '/'
  }

  lemma {:induction false} PlainRunKept(t: string, i: nat, j: nat)
    requires i <= j <= |t| && PlainSpan(t, i, j)
    ensures MaskFrom(t, i) == t[i..j] + MaskFrom(t, j)
    decreases j - i
  {
    if i < j {
      PlainStep(t, i);
      PlainRunKept(t, i + 1, j);
      ConsAppend(t[i], t[i + 1..j], t[i..j], MaskFrom(t, j));
    } else {
      assert t[i..j] == [];
    }
  }

  lemma ConsAppend<T>(x: T, u: seq<T>, s: seq<T>, m: seq<T>)
    requires s == [x] + u
    ensures [x] + (u + m) == s + m
  {
  }

  lemma LineEndAt(t: string, i: nat, e: nat)
    requires i <= e <= |t|
    requires forall k :: i <= k < e ==> !IsLineTerminator(t[k])
    requires e == |t| || IsLineTerminator(t[e])
    ensures LineEnd(t, i) == e
    decreases e - i
  {
    if i < e {
      LineEndAt(t, i + 1, e);
    }
  }

  lemma DashedAppend(a: string, b: string)
    ensures Dashed(a + b) == Dashed(a) + Dashed(b)
  {
  }

  /** A `//` comment, wherever it stands, has its word characters turned into `-` up to the
    * end of its line, and what follows is masked on its own. */
  lemma LineCommentMaskedBefore(s: string, b: string)
    requires forall k :: 0 <= k < |s| ==> !IsLineTerminator(s[k])
    requires b == [] || IsLineTerminator(b[0])
    ensures Mask("//" + s + b) == "//" + Dashed(s) + Mask(b)
  {
    var c := "//" + s;
    var t := c + b;
    assert "//" + s + b == t;
    LineEndAt(t, 0, |c|);
    assert t[0..|c|] == c;
    DashedAppend("//", s);
    assert Dashed("//") == "//";
    MaskShift(c, b, 0);
  }

  /** A `//` comment running to the end of the text is masked in full. */
  lemma LineCommentMasked(s: string)
    requires forall k :: 0 <= k < |s| ==> !IsLineTerminator(s[k])
    ensures Mask("//" + s) == "//" + Dashed(s)
  {
    LineCommentMaskedBefore(s, []);
    assert "//" + s + [] == "//" + s;
    assert Mask([]) == [];
  }

  /** Code without quotes and slashes followed by a `//` comment: the code is kept and the
    * comment masked. */
  lemma CommentAfterCodeMasked(a: string, s: string)
    requires forall k :: 0 <= k < |a| ==> !IsQuote(a[k]) && a[k] != '/'
    requires forall k :: 0 <= k < |s| ==> !IsLineTerminator(s[k])
    ensures Mask(a + "//" + s) == Mask(a) + "//" + Dashed(s)
  {
    PlainPrefixKept(a, "//" + s);
    PlainPrefixKept(a, []);
    assert a + [] == a;
    assert a + "//" + s == a + ("//" + s);
    LineCommentMasked(s);
  }

  lemma {:induction false} CommentCloseAt(t: string, k: nat, c: nat)
    requires k <= c && c + 1 < |t| && t[c] == '*' && t[c + 1] == '/'
    requires forall m :: k <= m < c ==> !(t[m] == '*' && t[m + 1] == '/')
    ensures CommentClose(t, k) == Some(c + 2)
    decreases c - k
  {
    if k < c {
      CommentCloseAt(t, k + 1, c);
    }
  }

  /** A closed `/* */` comment, wherever it stands, has every word character of its body
    * turned into `-`, and what follows is masked on its own. */
  lemma BlockCommentMasked(s: string, b: string)
    requires forall m :: 0 <= m < |s| - 1 ==> !(s[m] == '*' && s[m + 1] == '/')
    ensures Mask("/*" + s + "*/" + b) == "/*" + Dashed(s) + "*/" + Mask(b)
  {
    var c := "/*" + s + "*/";
    var t := c + b;
    assert "/*" + s + "*/" + b == t;
    assert forall m :: 2 <= m < |s| + 2 ==> t[m] == s[m - 2];
    CommentCloseAt(t, 2, |s| + 2);
    assert t[0..|c|] == c;
    DashedAppend("/*" + s, "*/");
    DashedAppend("/*", s);
    assert Dashed("/*") == "/*" && Dashed("*/") == "*/";
    MaskShift(c, b, 0);
  }

  lemma {:induction false} StringEndRun(t: string, q: char, k: nat, c: nat)
    requires k <= c < |t| && t[c] == q && q != '\\' && q != '\n'
    requires forall j :: k <= j < c ==> t[j] != q && t[j] != '\\' && t[j] != '\n'
    ensures StringEnd(t, q, k) == Some(c + 1)
    decreases c - k
  {
    if k < c {
      StringEndRun(t, q, k + 1, c);
    }
  }

  /** A one-line literal without escapes or its own quote, wherever it stands, is left as
    * it is, and what follows is masked on its own. */
  lemma StringLiteralKeptBefore(q: char, s: string, b: string)
    requires |s| > 0
    requires IsQuote(q)
    requires q !in s && '\\' !in s && '\n' !in s
    ensures Mask([q] + s + [q] + b) == [q] + s + [q] + Mask(b)
  {
    var c := [q] + s + [q];
    var t := c + b;
    assert [q] + s + [q] + b == t;
    assert forall j :: 1 <= j <= |s| ==> t[j] == s[j - 1];
    StringEndRun(t, q, 1, |s| + 1);
    assert t[0..|c|] == c;
    MaskShift(c, b, 0);
  }

  /** A one-line literal without escapes or its own quote is left as it is. */
  lemma StringLiteralKept(q: char, s: string)
    requires |s| > 0
    requires q == '\'' || q == '"'
    requires q !in s && '\\' !in s && '\n' !in s
    ensures Mask([q] + s + [q]) == [q] + s + [q]
  {
    StringLiteralKeptBefore(q, s, []);
    assert [q] + s + [q] + [] == [q] + s + [q];
    assert Mask([]) == [];
  }

  // ---------------------------------------------------------------------------
  // The `require\s*\((["'])(.*?)\1\)` scanner

  /** One step of the global match: either a plain character or a whole `require` call
    * that starts at offset `at`, with its text, its quote and its specifier. */
  datatype Piece = Plain(c: char) | Call(expr: string, quote: char, spec: string, at: nat)

  predicate IsQuote(c: char)
  {
    c == '\'' || c == '"'
  }

  /** `\s*` from `k`. */
  function SkipSpaces(t: string, k: nat): (j: nat)
    requires k <= |t|
    ensures k <= j <= |t|
    ensures forall m :: k <= m < j ==> IsSpace(t[m])
    decreases |t| - k
  {
    if k < |t| && IsSpace(t[k]) then SkipSpaces(t, k + 1) else k
  }

  /** The quote `q` and `)` stand at `m`. */
  predicate ClosesAt(t: string, q: char, m: nat)
  {
    m + 1 < |t| && t[m] == q && t[m + 1] == ')'
  }

  /** The lazy `(.*?)\1\)` from `k`: the first position holding `q` then `)` that is not
    * preceded by a line terminator since `k`. */
  function CloseAt(t: string, q: char, k: nat): (r: Option<nat>)
    ensures r.Some? ==> k <= r.value && r.value + 1 < |t| && t[r.value] == q && t[r.value + 1] == ')'
    ensures r.Some? ==> forall m :: k <= m < r.value ==> !IsLineTerminator(t[m])
    ensures r.Some? ==> forall m :: k <= m < r.value ==> !ClosesAt(t, q, m)
    decreases |t| - k
  {
    if k + 1 < |t| && t[k] == q && t[k + 1] == ')' then Some(k)
    else if k < |t| && !IsLineTerminator(t[k]) then CloseAt(t, q, k + 1)
    else None
  }

  /** A match of the pattern starting exactly at `i`: its end, quote and specifier. */
  function MatchAt(t: string, i: nat): (r: Option<(nat, char, string)>)
    requires i <= |t|
    ensures r.Some? ==> i + 11 <= r.value.0 <= |t| && IsQuote(r.value.1)
  {
    if StartsWith(t[i..], "require") then
      var j := SkipSpaces(t, i + 7);
      if j + 1 < |t| && t[j] == '(' && IsQuote(t[j + 1]) then
        match CloseAt(t, t[j + 1], j + 2)
        case Some(k) => Some((k + 2, t[j + 1], t[j + 2..k]))
        case None => None
      else None
    else None
  }

  /** A match is the shape the pattern describes, closed by the first `<quote>)` after the
    * opening quote: `require`, white space, `(` and the quote at `j`, then the specifier,
    * which holds no line terminator. */
  lemma MatchAtSound(t: string, i: nat)
    requires i <= |t| && MatchAt(t, i).Some?
    ensures var (e, q, spec) := MatchAt(t, i).value;
      var j := e - 4 - |spec|;
      i + 7 <= j && CallShape(t, i, j, e - 2) && q == t[j + 1] && spec == t[j + 2..e - 2]
      && (forall k :: 0 <= k < |spec| ==> !IsLineTerminator(spec[k]))
      && (forall m :: j + 2 <= m < e - 2 ==> !ClosesAt(t, q, m))
  {
    var j := SkipSpaces(t, i + 7);
    var c := CloseAt(t, t[j + 1], j + 2).value;
    assert MatchAt(t, i).value == (c + 2, t[j + 1], t[j + 2..c]);
  }

  /** The pieces of `t[i..]`, left to right, as a global `replace` visits them. */
  function ScanFrom(t: string, i: nat): (ps: seq<Piece>)
    requires i <= |t|
    ensures forall k :: 0 <= k < |ps| && ps[k].Call? ==> i <= ps[k].at
    decreases |t| - i
  {
    if i == |t| then []
    else match MatchAt(t, i)
      case Some((e, q, s)) => [Call(t[i..e], q, s, i)] + ScanFrom(t, e)
      case None => [Plain(t[i])] + ScanFrom(t, i + 1)
  }

  function Scan(t: string): seq<Piece>
  {
    ScanFrom(t, 0)
  }

  function PieceText(p: Piece): string
  {
    match p
    case Plain(c) => [c]
    case Call(e, _, _, _) => e
  }

  function Flatten(ps: seq<Piece>): string
  {
    if ps == [] then "" else PieceText(ps[0]) + Flatten(ps[1..])
  }

  /** A call whose specifier was resolved becomes `require(<q><id><q>)` with the same
    * quote; any other piece keeps its text. */
  function RenderPiece(p: Piece, ids: map<string, string>): string
  {
    match p
    case Plain(c) => [c]
    case Call(e, q, s, _) => if s in ids then "require(" + [q] + ids[s] + [q] + ")" else e
  }

  function Render(ps: seq<Piece>, ids: map<string, string>): string
  {
    if ps == [] then "" else RenderPiece(ps[0], ids) + Render(ps[1..], ids)
  }

  /** The final `trimed.replace(req, ...)` of `parse`. */
  function Rewrite(t: string, ids: map<string, string>): string
  {
    Render(Scan(t), ids)
  }

  predicate NoSpecIn(ps: seq<Piece>, ids: map<string, string>)
  {
    forall k :: 0 <= k < |ps| && ps[k].Call? ==> ps[k].spec !in ids
  }

  /** The specifiers of the calls among `ps`. */
  function CallSpecs(ps: seq<Piece>): set<string>
  {
    if ps == [] then {}
    else CallSpecs(ps[..|ps| - 1]) + (if ps[|ps| - 1].Call? then {ps[|ps| - 1].spec} else {})
  }

  /** Each line scanned on its own, as `parse` does with `.split('\n').map(...)`. */
  function ScanLines(lines: seq<string>): (r: seq<seq<Piece>>)
    ensures |r| == |lines|
    ensures forall n :: 0 <= n < |lines| ==> r[n] == Scan(lines[n])
  {
    seq(|lines|, n requires 0 <= n < |lines| => Scan(lines[n]))
  }

  /** The specifiers `parse` loads: those of the calls of every scanned line. */
  function LinesSpecs(scanned: seq<seq<Piece>>): set<string>
  {
    if scanned == [] then {} else LinesSpecs(scanned[..|scanned| - 1]) + CallSpecs(scanned[|scanned| - 1])
  }

  lemma CallSpecsSnoc(ps: seq<Piece>, k: nat)
    requires k < |ps|
    ensures CallSpecs(ps[..k + 1]) == CallSpecs(ps[..k]) + (if ps[k].Call? then {ps[k].spec} else {})
  {
    assert ps[..k + 1][..k] == ps[..k];
  }

  lemma LinesSpecsSnoc(scanned: seq<seq<Piece>>, n: nat)
    requires n < |scanned|
    ensures LinesSpecs(scanned[..n + 1]) == LinesSpecs(scanned[..n]) + CallSpecs(scanned[n])
  {
    assert scanned[..n + 1][..n] == scanned[..n];
  }

  /** A specifier is loaded exactly when a call on some line names it. */
  lemma {:induction false} LinesSpecsExact(scanned: seq<seq<Piece>>, s: string)
    ensures s in LinesSpecs(scanned) <==>
      exists n, k :: 0 <= n < |scanned| && 0 <= k < |scanned[n]| && scanned[n][k].Call? && scanned[n][k].spec == s
  {
    if scanned != [] {
      var init := scanned[..|scanned| - 1];
      var last := scanned[|scanned| - 1];
      LinesSpecsExact(init, s);
      CallSpecsExact(last, s);
      assert forall n :: 0 <= n < |init| ==> init[n] == scanned[n];
      if s in LinesSpecs(scanned) && s !in LinesSpecs(init) {
        var k :| 0 <= k < |last| && last[k].Call? && last[k].spec == s;
        assert scanned[|scanned| - 1][k].spec == s;
      }
    }
  }

  /** A specifier is collected exactly when some call names it. */
  lemma {:induction false} CallSpecsExact(ps: seq<Piece>, s: string)
    ensures s in CallSpecs(ps) <==> exists k :: 0 <= k < |ps| && ps[k].Call? && ps[k].spec == s
  {
    if ps != [] {
      var init := ps[..|ps| - 1];
      CallSpecsExact(init, s);
      assert forall k :: 0 <= k < |init| ==> init[k] == ps[k];
    }
  }

  /** The scanner loses nothing: its pieces put back together are the text. */
  lemma {:induction false} ScanLossless(t: string, i: nat)
    requires i <= |t|
    ensures Flatten(ScanFrom(t, i)) == t[i..]
    decreases |t| - i
  {
    if i < |t| {
      match MatchAt(t, i)
      case Some((e, q, s)) =>
        ScanLossless(t, e);
        FlattenCons(Call(t[i..e], q, s, i), ScanFrom(t, e));
        SliceSplit(t, i, e);
      case None =>
        ScanLossless(t, i + 1);
        FlattenCons(Plain(t[i]), ScanFrom(t, i + 1));
        SliceSplit(t, i, i + 1);
    }
  }

  lemma FlattenCons(p: Piece, ps: seq<Piece>)
    ensures Flatten([p] + ps) == PieceText(p) + Flatten(ps)
  {
    assert ([p] + ps)[1..] == ps;
  }

  lemma SliceSplit(t: string, i: nat, e: nat)
    requires i <= e <= |t|
    ensures t[i..] == t[i..e] + t[e..]
  {
  }

  lemma {:induction false} RenderUnchanged(ps: seq<Piece>, ids: map<string, string>)
    requires NoSpecIn(ps, ids)
    ensures Render(ps, ids) == Flatten(ps)
  {
    if ps != [] {
      RenderUnchanged(ps[1..], ids);
    }
  }

  /** Rewriting leaves the text alone when none of its calls names a resolved specifier;
    * in particular `Rewrite(t, map[]) == t`. */
  lemma RewriteIdentity(t: string, ids: map<string, string>)
    requires NoSpecIn(Scan(t), ids)
    ensures Rewrite(t, ids) == t
  {
    RenderUnchanged(Scan(t), ids);
    ScanLossless(t, 0);
  }

  /** A call rewritten to an id is again a complete call with the same quote, now naming
    * the id, when the id holds neither that quote nor a line terminator. */
  lemma RewrittenCallRescans(q: char, id: string)
    requires IsQuote(q)
    requires q !in id && forall k :: 0 <= k < |id| ==> !IsLineTerminator(id[k])
    ensures var r := "require(" + [q] + id + [q] + ")";
      MatchAt(r, 0) == Some((|r|, q, id))
  {
    var r := "require(" + [q] + id + [q] + ")";
    assert r[0..][..7] == "require";
    assert SkipSpaces(r, 7) == 7;
    assert r[9..9 + |id|] == id;
    CloseAtSkips(r, q, 9, 9 + |id|);
  }

  /** The rewrite of a lone call: a resolved specifier becomes its id between the same
    * quotes, an unresolved one is left verbatim. */
  lemma RewriteLoneCall(q: char, spec: string, ids: map<string, string>)
    requires IsQuote(q)
    requires q !in spec && forall k :: 0 <= k < |spec| ==> !IsLineTerminator(spec[k])
    ensures var call := "require(" + [q] + spec + [q] + ")";
      Rewrite(call, ids) == if spec in ids then "require(" + [q] + ids[spec] + [q] + ")" else call
  {
    var call := "require(" + [q] + spec + [q] + ")";
    RewrittenCallRescans(q, spec);
    assert call[0..|call|] == call;
    assert ScanFrom(call, |call|) == [];
    assert ScanFrom(call, 0) == [Call(call[0..|call|], q, spec, 0)] + ScanFrom(call, |call|);
    assert Scan(call) == [Call(call, q, spec, 0)];
    assert Render([Call(call, q, spec, 0)], ids) == RenderPiece(Call(call, q, spec, 0), ids) + Render([], ids);
  }

  lemma {:induction false} CloseAtSkips(t: string, q: char, k: nat, c: nat)
    requires k <= c && c + 1 < |t| && t[c] == q && t[c + 1] == ')'
    requires forall m :: k <= m < c ==> t[m] != q && !IsLineTerminator(t[m])
    ensures CloseAt(t, q, k) == Some(c)
    decreases c - k
  {
    if k < c {
      CloseAtSkips(t, q, k + 1, c);
    }
  }

  /** The text at `i` has the shape the pattern describes: `require`, white space up to
    * `j`, `(` and a quote at `j`, then characters other than line terminators up to `c`,
    * where the same quote and `)` stand. */
  ghost predicate CallShape(t: string, i: nat, j: nat, c: nat)
  {
    i + 7 <= j && j + 2 <= c && c + 1 < |t| && StartsWith(t[i..], "require")
    && (forall m :: i + 7 <= m < j ==> IsSpace(t[m]))
    && t[j] == '(' && IsQuote(t[j + 1]) && t[c] == t[j + 1] && t[c + 1] == ')'
    && (forall m :: j + 2 <= m < c ==> !IsLineTerminator(t[m]))
  }

  lemma {:induction false} SkipSpacesTo(t: string, k: nat, j: nat)
    requires k <= j < |t| && !IsSpace(t[j])
    requires forall m :: k <= m < j ==> IsSpace(t[m])
    ensures SkipSpaces(t, k) == j
    decreases j - k
  {
    if k < j {
      SkipSpacesTo(t, k + 1, j);
    }
  }

  lemma {:induction false} CloseAtFinds(t: string, q: char, k: nat, c: nat)
    requires k <= c && c + 1 < |t| && t[c] == q && t[c + 1] == ')'
    requires forall m :: k <= m < c ==> !IsLineTerminator(t[m])
    ensures CloseAt(t, q, k).Some? && CloseAt(t, q, k).value <= c
    ensures (forall m :: k <= m < c ==> !ClosesAt(t, q, m)) ==> CloseAt(t, q, k) == Some(c)
    decreases c - k
  {
    if k < c && !ClosesAt(t, q, k) {
      CloseAtFinds(t, q, k + 1, c);
    }
  }

  /** Wherever the text has the shape of a call, the scanner finds a match there; it ends
    * at the first `<quote>)`, and at the given one when no earlier one stands between. */
  lemma MatchAtFinds(t: string, i: nat, j: nat, c: nat, q: char)
    requires CallShape(t, i, j, c) && q == t[j + 1]
    ensures MatchAt(t, i).Some? && MatchAt(t, i).value.1 == q && MatchAt(t, i).value.0 <= c + 2
    ensures (forall m :: j + 2 <= m < c ==> !ClosesAt(t, q, m)) ==> MatchAt(t, i) == Some((c + 2, q, t[j + 2..c]))
  {
    SkipSpacesTo(t, i + 7, j);
    CloseAtFinds(t, q, j + 2, c);
  }


  lemma RenderCons(p: Piece, ps: seq<Piece>, ids: map<string, string>)
    ensures Render([p] + ps, ids) == RenderPiece(p, ids) + Render(ps, ids)
  {
    assert ([p] + ps)[1..] == ps;
  }

  lemma {:induction false} RenderAppend(ps: seq<Piece>, qs: seq<Piece>, ids: map<string, string>)
    ensures Render(ps + qs, ids) == Render(ps, ids) + Render(qs, ids)
    decreases |ps|
  {
    if ps == [] {
      assert ps + qs == qs;
    } else {
      assert (ps + qs)[1..] == ps[1..] + qs;
      RenderAppend(ps[1..], qs, ids);
    }
  }

  /** No `require` starts inside `a`, not even one that a `require` right after `a` would
    * complete. */
  predicate NoCallStart(a: string)
  {
    forall k :: 0 <= k < |a| ==> !StartsWith(a[k..] + "require", "require")
  }

  /** Each character as a plain piece. */
  function Plains(a: string): (ps: seq<Piece>)
    ensures |ps| == |a| && forall k :: 0 <= k < |a| ==> ps[k] == Plain(a[k])
  {
    seq(|a|, k requires 0 <= k < |a| => Plain(a[k]))
  }

  lemma {:induction false} PlainsRender(a: string, ids: map<string, string>)
    ensures Render(Plains(a), ids) == a
    decreases |a|
  {
    if a != [] {
      PlainsRender(a[1..], ids);
      assert Plains(a) == [Plain(a[0])] + Plains(a[1..]);
      RenderCons(Plain(a[0]), Plains(a[1..]), ids);
    }
  }

  lemma AppendAssoc<T>(x: seq<T>, y: seq<T>, z: seq<T>)
    ensures x + (y + z) == (x + y) + z
  {
  }

  lemma ScanFromPlain(t: string, i: nat)
    requires i < |t| && !StartsWith(t[i..], "require")
    ensures ScanFrom(t, i) == [Plain(t[i])] + ScanFrom(t, i + 1)
  {
  }

  /** Where no `require` starts, every character is a plain piece. */
  lemma {:induction false} PlainScan(t: string, i: nat, j: nat)
    requires i <= j <= |t|
    requires forall k :: i <= k < j ==> !StartsWith(t[k..], "require")
    ensures ScanFrom(t, i) == Plains(t[i..j]) + ScanFrom(t, j)
    decreases j - i
  {
    if i < j {
      ScanFromPlain(t, i);
      PlainScan(t, i + 1, j);
      assert Plains(t[i..j]) == [Plain(t[i])] + Plains(t[i + 1..j]);
      AppendAssoc([Plain(t[i])], Plains(t[i + 1..j]), ScanFrom(t, j));
    } else {
      assert Plains(t[i..j]) == [];
    }
  }

  lemma NoCallInPrefix(a: string, rest: string)
    requires NoCallStart(a) && StartsWith(rest, "require")
    ensures forall k :: 0 <= k < |a| ==> !StartsWith((a + rest)[k..], "require")
  {
    var t := a + rest;
    forall k | 0 <= k < |a| ensures !StartsWith(t[k..], "require") {
      assert (a[k..] + "require")[..7] == t[k..][..7] by {
        forall m | 0 <= m < 7 ensures (a[k..] + "require")[m] == t[k + m] {
          if k + m >= |a| {
            assert t[k + m] == rest[k + m - |a|] == "require"[k + m - |a|];
          }
        }
      }
    }
  }

  lemma NoCallInSuffix(p: string, b: string)
    requires NoCallStart(b)
    ensures forall k :: |p| <= k < |p + b| ==> !StartsWith((p + b)[k..], "require")
  {
    var t := p + b;
    forall k | |p| <= k < |t| ensures !StartsWith(t[k..], "require") {
      var y := k - |p|;
      assert t[k..] == b[y..];
      assert |b[y..]| >= 7 ==> (b[y..] + "require")[..7] == b[y..][..7];
    }
  }

  /** A complete call whose specifier holds neither its quote nor a line terminator is
    * matched in full, whatever surrounds it. */
  lemma CallMatchedAt(a: string, q: char, spec: string, b: string)
    requires IsQuote(q)
    requires q !in spec && forall k :: 0 <= k < |spec| ==> !IsLineTerminator(spec[k])
    ensures var call := "require(" + [q] + spec + [q] + ")";
      MatchAt(a + call + b, |a|) == Some((|a| + |call|, q, spec))
  {
    var call := "require(" + [q] + spec + [q] + ")";
    var t := a + call + b;
    var i := |a|;
    var c := i + 9 + |spec|;
    assert forall m :: 0 <= m < |call| ==> t[i + m] == call[m];
    assert t[i..][..7] == "require";
    assert t[i + 7] == '(' && t[i + 8] == q && t[c] == q && t[c + 1] == ')';
    assert SkipSpaces(t, i + 7) == i + 7;
    assert t[i + 9..c] == spec;
    CloseAtSkips(t, q, i + 9, c);
  }


  /** A call with a quote-free specifier, following text where no call starts, is scanned
    * as one `Call` piece at its offset, after a plain piece for each earlier character. */
  lemma EmbeddedCallScanned(a: string, q: char, spec: string, b: string)
    requires NoCallStart(a) && NoCallStart(b) && IsQuote(q)
    requires q !in spec && forall k :: 0 <= k < |spec| ==> !IsLineTerminator(spec[k])
    ensures var call := "require(" + [q] + spec + [q] + ")";
      Scan(a + call + b) == Plains(a) + [Call(call, q, spec, |a|)] + Plains(b)
  {
    var call := "require(" + [q] + spec + [q] + ")";
    var rest := call + b;
    assert a + call + b == a + rest;
    assert rest[..7] == "require";
    PrefixScansPlain(a, rest);
    CallScannedAt(a, q, spec, b);
    AppendAssoc(Plains(a), [Call(call, q, spec, |a|)], Plains(b));
  }

  lemma PrefixScansPlain(a: string, rest: string)
    requires NoCallStart(a) && StartsWith(rest, "require")
    ensures ScanFrom(a + rest, 0) == Plains(a) + ScanFrom(a + rest, |a|)
  {
    NoCallInPrefix(a, rest);
    PlainScan(a + rest, 0, |a|);
    assert (a + rest)[0..|a|] == a;
  }

  lemma CallScannedAt(a: string, q: char, spec: string, b: string)
    requires NoCallStart(b) && IsQuote(q)
    requires q !in spec && forall k :: 0 <= k < |spec| ==> !IsLineTerminator(spec[k])
    ensures var call := "require(" + [q] + spec + [q] + ")";
      ScanFrom(a + call + b, |a|) == [Call(call, q, spec, |a|)] + Plains(b)
  {
    var call := "require(" + [q] + spec + [q] + ")";
    var t := a + call + b;
    var e := |a| + |call|;
    CallMatchedAt(a, q, spec, b);
    ScanFromCall(t, |a|, e, q, spec);
    assert t[|a|..e] == call;
    SuffixScansPlain(a + call, b);
  }

  lemma ScanFromCall(t: string, i: nat, e: nat, q: char, spec: string)
    requires i <= |t| && MatchAt(t, i) == Some((e, q, spec))
    ensures ScanFrom(t, i) == [Call(t[i..e], q, spec, i)] + ScanFrom(t, e)
  {
  }


  /** A text holding one call, with no other call starting before or after it, is
    * rewritten at that call only: it becomes `require(<q><id><q>)` when its specifier was
    * resolved and stays verbatim otherwise. */
  lemma RewriteEmbeddedCall(a: string, q: char, spec: string, b: string, ids: map<string, string>)
    requires NoCallStart(a) && NoCallStart(b) && IsQuote(q)
    requires q !in spec && forall k :: 0 <= k < |spec| ==> !IsLineTerminator(spec[k])
    ensures var call := "require(" + [q] + spec + [q] + ")";
      Rewrite(a + call + b, ids) ==
        a + (if spec in ids then "require(" + [q] + ids[spec] + [q] + ")" else call) + b
  {
    var call := "require(" + [q] + spec + [q] + ")";
    var piece := Call(call, q, spec, |a|);
    EmbeddedCallScanned(a, q, spec, b);
    RenderAround(a, piece, b, ids);
  }

  lemma SuffixScansPlain(p: string, b: string)
    requires NoCallStart(b)
    ensures ScanFrom(p + b, |p|) == Plains(b)
  {
    var t := p + b;
    NoCallInSuffix(p, b);
    PlainScan(t, |p|, |t|);
    assert t[|p|..|t|] == b;
    assert ScanFrom(t, |t|) == [];
    assert Plains(b) + [] == Plains(b);
  }

  lemma RenderAround(a: string, piece: Piece, b: string, ids: map<string, string>)
    ensures Render(Plains(a) + [piece] + Plains(b), ids) == a + RenderPiece(piece, ids) + b
  {
    RenderAppend(Plains(a) + [piece], Plains(b), ids);
    RenderAppend(Plains(a), [piece], ids);
    RenderCons(piece, [], ids);
    assert Render([], ids) == "";
    PlainsRender(a, ids);
    PlainsRender(b, ids);
  }


  /** Text without a word character holds no call: the scanner only starts one on `r`. */
  lemma {:induction false} NoCallWithoutWords(t: string, i: nat)
    requires i <= |t|
    requires forall k :: i <= k < |t| ==> !IsWordChar(t[k])
    ensures forall k :: 0 <= k < |ScanFrom(t, i)| ==> ScanFrom(t, i)[k].Plain?
    decreases |t| - i
  {
    if i < |t| {
      assert t[i..][0] == t[i] != 'r';
      assert !StartsWith(t[i..], "require") by {
        assert |"require"| <= |t[i..]| ==> t[i..][..7][0] == t[i..][0];
      }
      NoCallWithoutWords(t, i + 1);
    }
  }

  /** No `require` starts at `k` of a code line `a` without calls followed by a masked
    * `//` comment: inside `a` it would have to run on into the comment, which opens with
    * `/`, and the comment itself holds no word character. */
  lemma NoCallAt(a: string, s: string, k: nat)
    requires NoCallStart(a)
    requires k < |a + "//" + Dashed(s)|
    ensures !StartsWith((a + "//" + Dashed(s))[k..], "require")
  {
    var t := a + "//" + Dashed(s);
    if k >= |a| {
      if k >= |a| + 2 { assert t[k] == Dashed(s)[k - |a| - 2]; }
      assert |"require"| <= |t[k..]| ==> t[k..][..7][0] == t[k];
    } else if k + 7 <= |a| {
      assert (a[k..] + "require")[..7] == t[k..][..7];
    } else {
      assert |t[k..]| >= 7 ==> t[k..][..7][|a| - k] == t[|a|] == '/';
    }
  }

  /** A `require(...)` written in a `//` comment after a line of code is never seen by the
    * scan of the masked text, so it is neither resolved nor recorded: every piece is a
    * plain character. */
  lemma CommentedRequireIgnored(a: string, s: string)
    requires forall k :: 0 <= k < |a| ==> !IsQuote(a[k]) && a[k] != '/'
    requires NoCallStart(a)
    requires forall k :: 0 <= k < |s| ==> !IsLineTerminator(s[k])
    ensures Scan(Mask(a + "//" + s)) == Plains(a + "//" + Dashed(s))
  {
    CommentAfterCodeMasked(a, s);
    PlainPrefixKept(a, []);
    assert a + [] == a;
    assert Mask([]) == [];
    var t := a + "//" + Dashed(s);
    forall k | 0 <= k < |t| ensures !StartsWith(t[k..], "require") {
      NoCallAt(a, s, k);
    }
    PlainScan(t, 0, |t|);
    assert t[0..|t|] == t;
  }
}
