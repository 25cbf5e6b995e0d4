/** Baselines: fingerprints that survive changed numbers, and the filter that hides known findings. */
module Baseline {
  import opened Domain
  import opened Ordering
  import opened Selection

  type TextFinding = Finding<string>

  // ----- Number literals

  predicate IsDigit(c: char) {
    '0' <= c <= '9'
  }

  function DigitRun(s: string): (n: nat)
    ensures n <= |s| && (n > 0 <==> s != "" && IsDigit(s[0]))
  {
    if s == "" || !IsDigit(s[0]) then 0 else 1 + DigitRun(s[1..])
  }

  /** The run is the longest one of digits at the front. */
  lemma {:induction false} DigitRunIs(s: string, n: nat)
    requires n <= |s|
    ensures DigitRun(s) == n <==> (forall i :: 0 <= i < n ==> IsDigit(s[i])) && (n < |s| ==> !IsDigit(s[n]))
  {
    if s != "" && IsDigit(s[0]) && n > 0 {
      DigitRunIs(s[1..], n - 1);
      assert forall i :: 0 < i < |s| ==> s[i] == s[1..][i - 1];
    }
  }

  /** Length of the match of \d+(\.\d+)? at the front of s; zero if there is none. */
  function NumberLength(s: string): (n: nat)
    ensures n <= |s| && (n > 0 <==> s != "" && IsDigit(s[0]))
  {
    var d := DigitRun(s);
    if 0 < d < |s| && s[d] == '.' && DigitRun(s[d + 1..]) > 0 then d + 1 + DigitRun(s[d + 1..]) else d
  }

  predicate Digits(s: string) {
    s != "" && forall i :: 0 <= i < |s| ==> IsDigit(s[i])
  }

  /** An integer, or a decimal with digits on both sides of the point. */
  ghost predicate Literal(s: string) {
    Digits(s) || exists i :: 0 <= i < |s| && s[i] == '.' && Digits(s[..i]) && Digits(s[i + 1..])
  }

  lemma DigitsIff(s: string)
    ensures Digits(s) <==> s != "" && DigitRun(s) == |s|
  {
    DigitRunIs(s, |s|);
  }

  /** The first dot of a decimal ends its run of digits. */
  lemma DecimalRun(s: string, i: nat)
    requires i < |s| && s[i] == '.' && Digits(s[..i])
    ensures DigitRun(s) == i
  {
    assert forall k :: 0 <= k < i ==> s[k] == s[..i][k];
    DigitRunIs(s, i);
  }

  lemma {:induction false} RunOfPrefix(s: string, n: nat)
    requires n <= |s|
    ensures DigitRun(s[..n]) == if DigitRun(s) < n then DigitRun(s) else n
  {
    var d := DigitRun(s);
    DigitRunIs(s, d);
    DigitRunIs(s[..n], if d < n then d else n);
  }

  /** The match at the front is a literal... */
  lemma MatchIsLiteral(s: string)
    requires NumberLength(s) > 0
    ensures Literal(s[..NumberLength(s)])
  {
    var d, n := DigitRun(s), NumberLength(s);
    DigitRunIs(s, d);
    if n > d {
      var m := s[..n];
      DigitRunIs(s[d + 1..], DigitRun(s[d + 1..]));
      assert m[d] == '.' && m[..d] == s[..d] && m[d + 1..] == s[d + 1..][..n - d - 1];
    }
  }

  /** ...and the longest one there. */
  lemma MatchIsLongest(s: string, n: nat)
    requires n <= |s| && Literal(s[..n])
    ensures n <= NumberLength(s)
  {
    var m, d := s[..n], DigitRun(s);
    RunOfPrefix(s, n);
    if Digits(m) {
      DigitsIff(m);
    } else {
      var i :| 0 <= i < |m| && m[i] == '.' && Digits(m[..i]) && Digits(m[i + 1..]);
      DecimalRun(m, i);
      assert d == i && s[d] == '.';
      assert m[i + 1..] == s[d + 1..][..n - d - 1];
      DigitsIff(m[i + 1..]);
      RunOfPrefix(s[d + 1..], n - d - 1);
    }
  }

  const PLACEHOLDER := "[N]"

  /** Every number literal becomes the placeholder, scanning from the left. */
  function NormalizeMessage(s: string): string {
    if s == "" then ""
    else if NumberLength(s) == 0 then [s[0]] + NormalizeMessage(s[1..])
    else PLACEHOLDER + NormalizeMessage(s[NumberLength(s)..])
  }

  predicate DigitFree(s: string) {
    forall i :: 0 <= i < |s| ==> !IsDigit(s[i])
  }

  lemma {:induction false} NormalizedIsDigitFree(s: string)
    ensures DigitFree(NormalizeMessage(s))
  {
    if s != "" {
      if NumberLength(s) == 0 {
        NormalizedIsDigitFree(s[1..]);
      } else {
        NormalizedIsDigitFree(s[NumberLength(s)..]);
      }
    }
  }

  lemma {:induction false} DigitFreeIsNormal(s: string)
    requires DigitFree(s)
    ensures NormalizeMessage(s) == s
  {
    if s != "" {
      DigitFreeIsNormal(s[1..]);
    }
  }

  lemma NormalizeIsIdempotent(s: string)
    ensures NormalizeMessage(NormalizeMessage(s)) == NormalizeMessage(s)
  {
    NormalizedIsDigitFree(s);
    DigitFreeIsNormal(NormalizeMessage(s));
  }

  // ----- Normalisation around a literal

  predicate IsNumber(s: string) {
    s != "" && NumberLength(s) == |s|
  }

  predicate Glues(c: char) {
    IsDigit(c) || c == '.'
  }

  /** A literal after this text starts afresh. */
  predicate EndsClean(s: string) {
    s == "" || !Glues(s[|s| - 1])
  }

  /** A literal before this text ends there. */
  predicate StartsClean(s: string) {
    s == "" || !Glues(s[0])
  }

  /** Appending text that does not start with a digit keeps the run. */
  lemma DigitRunKeeps(s: string, rest: string)
    requires DigitRun(s) < |s| || rest == "" || !IsDigit(rest[0])
    ensures DigitRun(s + rest) == DigitRun(s)
  {
    DigitRunIs(s, DigitRun(s));
    DigitRunIs(s + rest, DigitRun(s));
  }

  /** The match at the front of a literal followed by clean text is the literal. */
  lemma NumberThenText(num: string, post: string)
    requires IsNumber(num) && StartsClean(post)
    ensures NumberLength(num + post) == |num|
  {
    var d := DigitRun(num);
    DigitRunKeeps(num, post);
    if d < |num| {
      assert (num + post)[d + 1..] == num[d + 1..] + post;
      DigitRunKeeps(num[d + 1..], post);
    }
  }

  /** What follows text with a clean end cannot change the match at its front. */
  lemma MatchStaysInside(pre: string, rest: string)
    requires pre != "" && EndsClean(pre)
    ensures NumberLength(pre + rest) == NumberLength(pre) < |pre|
  {
    var d := DigitRun(pre);
    DigitRunIs(pre, d);
    DigitRunKeeps(pre, rest);
    if d + 1 < |pre| {
      assert (pre + rest)[d + 1..] == pre[d + 1..] + rest;
      DigitRunIs(pre[d + 1..], DigitRun(pre[d + 1..]));
      DigitRunKeeps(pre[d + 1..], rest);
    }
  }

  /** What the scan emits first, and how much of the text it consumes for it. */
  function FirstToken(s: string): string
    requires s != ""
  {
    if NumberLength(s) == 0 then [s[0]] else PLACEHOLDER
  }

  function FirstLength(s: string): (n: nat)
    requires s != ""
    ensures 0 < n <= |s|
  {
    if NumberLength(s) == 0 then 1 else NumberLength(s)
  }

  lemma NormalizeStep(pre: string, rest: string)
    requires pre != "" && EndsClean(pre)
    ensures var n := FirstLength(pre);
            NormalizeMessage(pre + rest) == FirstToken(pre) + NormalizeMessage(pre[n..] + rest) && EndsClean(pre[n..])
  {
    var n := FirstLength(pre);
    MatchStaysInside(pre, rest);
    assert (pre + rest)[n..] == pre[n..] + rest;
  }

  /** Text with a clean end loses its first token the same way on its own and in front of more text. */
  lemma NormalizeFront(pre: string, rest: string) returns (token: string, later: string)
    requires pre != "" && EndsClean(pre)
    ensures |later| < |pre| && EndsClean(later)
    ensures NormalizeMessage(pre) == token + NormalizeMessage(later)
    ensures NormalizeMessage(pre + rest) == token + NormalizeMessage(later + rest)
  {
    token, later := FirstToken(pre), pre[FirstLength(pre)..];
    NormalizeStep(pre, rest);
    NormalizeStep(pre, "");
    assert pre + "" == pre && later + "" == later;
  }

  lemma NormalizeLiteral(num: string, post: string)
    requires IsNumber(num) && StartsClean(post)
    ensures NormalizeMessage(num + post) == PLACEHOLDER + NormalizeMessage(post)
  {
    NumberThenText(num, post);
    assert (num + post)[|num|..] == post;
  }

  /** Normalisation splits after text with a clean end, whatever follows. */
  lemma {:induction false} NormalizeConcat(pre: string, rest: string)
    requires EndsClean(pre)
    ensures NormalizeMessage(pre + rest) == NormalizeMessage(pre) + NormalizeMessage(rest)
    decreases |pre|
  {
    if pre == "" {
      assert pre + rest == rest;
    } else {
      var token, later := NormalizeFront(pre, rest);
      NormalizeConcat(later, rest);
      Associative(token, NormalizeMessage(later), NormalizeMessage(rest));
    }
  }

  /** Normalisation splits at a literal not adjacent to a digit or a dot. */
  lemma NormalizeSplits(pre: string, num: string, post: string)
    requires EndsClean(pre) && IsNumber(num) && StartsClean(post)
    ensures NormalizeMessage(pre + num + post) == NormalizeMessage(pre) + PLACEHOLDER + NormalizeMessage(post)
  {
    assert pre + num + post == pre + (num + post);
    NormalizeConcat(pre, num + post);
    NormalizeLiteral(num, post);
  }

  // ----- What a normal form remembers

  datatype Token = Char(c: char) | Number

  /** The message with each number literal replaced by one token. */
  function Tokens(s: string): (ts: seq<Token>)
    ensures s != "" ==> ts != [] && ts[0] == (if NumberLength(s) == 0 then Char(s[0]) else Number)
    ensures s == "" ==> ts == []
  {
    if s == "" then []
    else if NumberLength(s) == 0 then [Char(s[0])] + Tokens(s[1..])
    else [Number] + Tokens(s[NumberLength(s)..])
  }

  /** The message as its normal form shows it: text that spells the placeholder is read as a number too. */
  function Lexed(s: string): seq<Token> {
    if s == "" then []
    else if NumberLength(s) > 0 then [Number] + Lexed(s[NumberLength(s)..])
    else if PLACEHOLDER <= s then [Number] + Lexed(s[|PLACEHOLDER|..])
    else [Char(s[0])] + Lexed(s[1..])
  }

  function Spell(ts: seq<Token>): string {
    if ts == [] then ""
    else (match ts[0] case Char(c) => [c] case Number => PLACEHOLDER) + Spell(ts[1..])
  }

  lemma SpellStep(t: Token, ts: seq<Token>)
    ensures Spell([t] + ts) == (match t case Char(c) => [c] case Number => PLACEHOLDER) + Spell(ts)
  {
    assert ([t] + ts)[1..] == ts;
  }

  /** A spelled placeholder comes through unchanged. */
  lemma PlaceholderNormalises(s: string)
    requires PLACEHOLDER <= s
    ensures NumberLength(s) == 0 && NormalizeMessage(s) == PLACEHOLDER + NormalizeMessage(s[3..])
  {
    assert s[1..][1..] == s[2..] && s[2..][1..] == s[3..];
    assert s[0] == '[' && s[1..][0] == 'N' && s[2..][0] == ']';
    assert NormalizeMessage(s[2..]) == "]" + NormalizeMessage(s[3..]);
    assert NormalizeMessage(s[1..]) == "N" + NormalizeMessage(s[2..]);
    assert NormalizeMessage(s) == "[" + NormalizeMessage(s[1..]);
  }

  lemma {:induction false} LexedSpells(s: string)
    ensures Spell(Lexed(s)) == NormalizeMessage(s)
    decreases |s|
  {
    if s != "" {
      if NumberLength(s) > 0 {
        SpellStep(Number, Lexed(s[NumberLength(s)..]));
        LexedSpells(s[NumberLength(s)..]);
      } else if PLACEHOLDER <= s {
        SpellStep(Number, Lexed(s[3..]));
        PlaceholderNormalises(s);
        LexedSpells(s[3..]);
      } else {
        SpellStep(Char(s[0]), Lexed(s[1..]));
        LexedSpells(s[1..]);
      }
    }
  }

  /** A normal form starts with a character that is not an opening bracket only if the message does. */
  lemma StartsAsText(s: string)
    requires NormalizeMessage(s) != "" && NormalizeMessage(s)[0] != '['
    ensures s != "" && NumberLength(s) == 0 && s[0] == NormalizeMessage(s)[0]
    ensures NormalizeMessage(s)[1..] == NormalizeMessage(s[1..])
  {}

  /** Where no number is, the normal form starts with the placeholder only if the text does. */
  lemma PlaceholderComesFromText(s: string)
    requires s != "" && NumberLength(s) == 0
    ensures PLACEHOLDER <= NormalizeMessage(s) ==> PLACEHOLDER <= s
  {
    var n := NormalizeMessage(s);
    if PLACEHOLDER <= n {
      assert n == [s[0]] + NormalizeMessage(s[1..]) && n[0] == '[' && n[1] == 'N' && n[2] == ']';
      StartsAsText(s[1..]);
      StartsAsText(s[1..][1..]);
    }
  }

  lemma LexedPlaceholder(rest: string)
    ensures Lexed(PLACEHOLDER + rest) == [Number] + Lexed(rest)
  {
    assert (PLACEHOLDER + rest)[|PLACEHOLDER|..] == rest;
  }

  /** Reading the normal form gives what reading the message gave. */
  lemma {:induction false} LexedOfNormalForm(s: string)
    ensures Lexed(NormalizeMessage(s)) == Lexed(s)
    decreases |s|
  {
    if s != "" {
      if NumberLength(s) > 0 {
        LexedPlaceholder(NormalizeMessage(s[NumberLength(s)..]));
        LexedOfNormalForm(s[NumberLength(s)..]);
      } else if PLACEHOLDER <= s {
        PlaceholderNormalises(s);
        LexedPlaceholder(NormalizeMessage(s[3..]));
        LexedOfNormalForm(s[3..]);
      } else {
        PlaceholderComesFromText(s);
        assert NormalizeMessage(s)[1..] == NormalizeMessage(s[1..]);
        LexedOfNormalForm(s[1..]);
      }
    }
  }

  /** Two messages normalise alike exactly when they read the same. */
  lemma SameNormalFormIff(a: string, b: string)
    ensures NormalizeMessage(a) == NormalizeMessage(b) <==> Lexed(a) == Lexed(b)
  {
    LexedSpells(a);
    LexedSpells(b);
    LexedOfNormalForm(a);
    LexedOfNormalForm(b);
  }

  lemma {:induction false} NormalFormOfTokens(a: string, b: string)
    requires Tokens(a) == Tokens(b)
    ensures NormalizeMessage(a) == NormalizeMessage(b)
    decreases |a|
  {
    if a != "" && b != "" {
      var x, y := a[FirstLength(a)..], b[FirstLength(b)..];
      assert Tokens(x) == Tokens(a)[1..] && Tokens(y) == Tokens(b)[1..];
      NormalFormOfTokens(x, y);
    }
  }

  /** The documented claim for a pair: they normalise alike exactly when they differ in number literals only. */
  ghost predicate ForgetsNumbersOnly(a: string, b: string) {
    NormalizeMessage(a) == NormalizeMessage(b) <==> Tokens(a) == Tokens(b)
  }

  /** It fails exactly for messages that read the same and have a number where the other spells the placeholder. */
  lemma ForgetsNumbersOnlyIff(a: string, b: string)
    ensures ForgetsNumbersOnly(a, b) <==> !(Lexed(a) == Lexed(b) && Tokens(a) != Tokens(b))
  {
    SameNormalFormIff(a, b);
    if Tokens(a) == Tokens(b) {
      NormalFormOfTokens(a, b);
    }
  }

  /** The text nowhere spells the placeholder itself. */
  predicate Clean(s: string) {
    s == "" || (!(PLACEHOLDER <= s) && Clean(s[1..]))
  }

  lemma {:induction false} CleanSuffix(s: string, k: nat)
    requires Clean(s) && k <= |s|
    ensures Clean(s[k..])
  {
    if k > 0 {
      CleanSuffix(s[1..], k - 1);
      assert s[1..][k - 1..] == s[k..];
    } else {
      assert s[0..] == s;
    }
  }

  lemma {:induction false} CleanReadsAsTokens(s: string)
    requires Clean(s)
    ensures Lexed(s) == Tokens(s)
    decreases |s|
  {
    if s != "" {
      CleanSuffix(s, FirstLength(s));
      CleanReadsAsTokens(s[FirstLength(s)..]);
    }
  }

  /** So it holds for every two messages that do not spell the placeholder. */
  lemma CleanForgetNumbersOnly(a: string, b: string)
    requires Clean(a) && Clean(b)
    ensures ForgetsNumbersOnly(a, b)
  {
    SameNormalFormIff(a, b);
    CleanReadsAsTokens(a);
    CleanReadsAsTokens(b);
  }

  /** Text that does spell it is taken for a number. */
  lemma PlaceholderTextIsTakenForANumber()
    ensures NormalizeMessage("[N]") == NormalizeMessage("7") && Tokens("[N]") != Tokens("7")
  {
    assert "[N]"[1..] == "N]" && "N]"[1..] == "]" && "]"[1..] == "";
    assert NormalizeMessage("]") == "]" && NormalizeMessage("N]") == "N]" && NormalizeMessage("[N]") == "[N]";
    assert DigitRun("7") == 1 && "7"[1..] == "";
    assert NormalizeMessage("7") == PLACEHOLDER + NormalizeMessage("");
  }

  lemma {:induction false} DigitFreeTokens(s: string)
    requires DigitFree(s)
    ensures |Tokens(s)| == |s| && forall i :: 0 <= i < |s| ==> Tokens(s)[i] == Char(s[i])
  {
    if s != "" {
      DigitFreeTokens(s[1..]);
    }
  }

  lemma LeadingDigit(v: string)
    requires DigitFree(v)
    ensures NormalizeMessage("7" + v) == PLACEHOLDER + v
  {
    var s := "7" + v;
    DigitRunIs(s, 1);
    assert s[1..] == v && (v != "" ==> DigitRun(v[1..]) == 0 && s[2..] == v[1..]);
    DigitFreeIsNormal(v);
  }

  /** A digit between digit-free texts becomes the placeholder. */
  lemma {:induction false} LoneDigit(u: string, v: string)
    requires DigitFree(u) && DigitFree(v)
    ensures NormalizeMessage(u + "7" + v) == u + PLACEHOLDER + v
  {
    if u == "" {
      LeadingDigit(v);
      assert u + "7" + v == "7" + v && u + PLACEHOLDER + v == PLACEHOLDER + v;
    } else {
      var s := u + "7" + v;
      assert s[0] == u[0] && s[1..] == u[1..] + "7" + v;
      LoneDigit(u[1..], v);
      assert [u[0]] + (u[1..] + PLACEHOLDER + v) == u + PLACEHOLDER + v;
    }
  }

  lemma {:induction false} UncleanSplits(s: string) returns (u: string, v: string)
    requires !Clean(s)
    ensures s == u + PLACEHOLDER + v
  {
    if PLACEHOLDER <= s {
      u, v := "", s[3..];
    } else {
      u, v := UncleanSplits(s[1..]);
      u := [s[0]] + u;
    }
  }

  /** Every message of the same normal form differs from this one in number literals only. */
  ghost predicate OnlyItsOwnKind(a: string) {
    forall b :: NormalizeMessage(b) == NormalizeMessage(a) ==> Tokens(b) == Tokens(a)
  }

  lemma {:induction false} NumberShows(s: string)
    requires !DigitFree(s)
    ensures !Clean(NormalizeMessage(s))
    decreases |s|
  {
    if NumberLength(s) == 0 {
      assert DigitFree(s[1..]) ==> DigitFree(s);
      NumberShows(s[1..]);
      assert NormalizeMessage(s)[1..] == NormalizeMessage(s[1..]);
    }
  }

  /** Only text with neither a number nor the placeholder's spelling in it is safe from that. */
  lemma NormalFormIsOwnIff(a: string)
    ensures OnlyItsOwnKind(a) <==> DigitFree(a) && Clean(a)
  {
    var n := NormalizeMessage(a);
    if DigitFree(a) && Clean(a) {
      DigitFreeIsNormal(a);
      forall b | NormalizeMessage(b) == n ensures Tokens(b) == Tokens(a) {
        if !DigitFree(b) { NumberShows(b); }
        DigitFreeIsNormal(b);
      }
    } else {
      if DigitFree(a) { DigitFreeIsNormal(a); } else { NumberShows(a); }
      AnotherKind(a);
    }
  }

  /** A placeholder in the normal form may stand for a number and for its own spelling. */
  lemma AnotherKind(a: string)
    requires !Clean(NormalizeMessage(a))
    ensures !OnlyItsOwnKind(a)
  {
    var n := NormalizeMessage(a);
    NormalizedIsDigitFree(a);
    NormalizeIsIdempotent(a);
    var u, v := UncleanSplits(n);
    assert DigitFree(u) && DigitFree(v) by {
      assert forall i :: 0 <= i < |u| ==> n[i] == u[i];
      assert forall i :: 0 <= i < |v| ==> n[|u| + 3 + i] == v[i];
    }
    LoneDigit(u, v);
    TwoKinds(n, u, v);
    assert NormalizeMessage(u + "7" + v) == n;
  }

  lemma TwoKinds(n: string, u: string, v: string)
    requires DigitFree(n) && n == u + PLACEHOLDER + v
    ensures Tokens(n) != Tokens(u + "7" + v)
  {
    DigitFreeTokens(n);
    TokensAtMost(u + "7" + v);
    assert |u + "7" + v| < |n|;
  }

  lemma {:induction false} TokensAtMost(s: string)
    ensures |Tokens(s)| <= |s|
  {
    if s != "" {
      TokensAtMost(s[FirstLength(s)..]);
    }
  }

  // ----- Messages with numbers in them

  /** texts[0] nums[0] texts[1] nums[1] ... texts[n]. */
  function Render(texts: seq<string>, nums: seq<string>): string
    requires |texts| == |nums| + 1
  {
    if nums == [] then texts[0]
    else
      var n := |nums| - 1;
      Render(texts[..n + 1], nums[..n]) + nums[n] + texts[n + 1]
  }

  /** Each literal is bordered by text that neither extends nor absorbs it. */
  predicate Bordered(texts: seq<string>) {
    && (forall i :: 0 < i < |texts| ==> StartsClean(texts[i]))
    && (forall i :: 0 <= i < |texts| - 1 ==> EndsClean(texts[i]))
    && (forall i :: 0 < i < |texts| - 1 ==> texts[i] != "")
  }

  predicate AllNumbers(nums: seq<string>) {
    forall i :: 0 <= i < |nums| ==> IsNumber(nums[i])
  }

  /** Messages that differ only in bordered numbers normalise alike. */
  lemma {:induction false} NumbersDoNotMatter(texts: seq<string>, nums: seq<string>, nums': seq<string>)
    requires |texts| == |nums| + 1 == |nums'| + 1 && Bordered(texts) && AllNumbers(nums) && AllNumbers(nums')
    ensures NormalizeMessage(Render(texts, nums)) == NormalizeMessage(Render(texts, nums'))
  {
    if nums != [] {
      var n := |nums| - 1;
      var before := texts[..n + 1];
      NumbersDoNotMatter(before, nums[..n], nums'[..n]);
      assert EndsClean(Render(before, nums[..n])) && EndsClean(Render(before, nums'[..n]));
      NormalizeSplits(Render(before, nums[..n]), nums[n], texts[n + 1]);
      NormalizeSplits(Render(before, nums'[..n]), nums'[n], texts[n + 1]);
    }
  }

  // ----- Fingerprints

  datatype FindingFingerprint = FindingFingerprint(RuleName: string, NodeID: string, SourceFile: string,
                                                   MessageDigest: string)

  /** `hash` stands for the first sixteen hex digits of SHA-256. */
  type Hash = string -> string

  function DigestFromMessage(hash: Hash, msg: string): string {
    hash(NormalizeMessage(msg))
  }

  function MessageDigest(hash: Hash, f: TextFinding): string {
    if f.MessageTemplateID != "" then f.MessageTemplateID else DigestFromMessage(hash, f.Message)
  }

  function Fingerprint(hash: Hash, f: TextFinding): FindingFingerprint {
    FindingFingerprint(f.RuleName, f.NodeID, f.SourceFile, MessageDigest(hash, f))
  }

  /** A stored record may carry a digest, or, from the first schema version, the full message instead. */
  datatype StoredFingerprint = StoredFingerprint(RuleName: string, NodeID: string, SourceFile: string,
                                                 MessageDigest: string, LegacyMessage: string)

  function Load(hash: Hash, r: StoredFingerprint): FindingFingerprint {
    FindingFingerprint(r.RuleName, r.NodeID, r.SourceFile,
      if r.MessageDigest == "" && r.LegacyMessage != "" then DigestFromMessage(hash, r.LegacyMessage)
      else r.MessageDigest)
  }

  method NewBaselineFromFindings(hash: Hash, findings: seq<TextFinding>) returns (fps: seq<FindingFingerprint>)
    ensures |fps| == |findings| && forall i :: 0 <= i < |findings| ==> fps[i] == Fingerprint(hash, findings[i])
  {
    fps := [];
    for i := 0 to |findings|
      invariant |fps| == i && forall j :: 0 <= j < i ==> fps[j] == Fingerprint(hash, findings[j])
    {
      fps := fps + [Fingerprint(hash, findings[i])];
    }
  }

  method Contains(hash: Hash, baseline: seq<FindingFingerprint>, f: TextFinding) returns (found: bool)
    ensures found <==> Fingerprint(hash, f) in baseline
  {
    var target := Fingerprint(hash, f);
    for i := 0 to |baseline|
      invariant target !in baseline[..i]
    {
      if baseline[i] == target {
        return true;
      }
    }
    return false;
  }

  function NewOnes(hash: Hash, findings: seq<TextFinding>, baseline: seq<FindingFingerprint>): seq<TextFinding> {
    if findings == [] then []
    else
      var last := |findings| - 1;
      NewOnes(hash, findings[..last], baseline)
      + if Fingerprint(hash, findings[last]) in baseline then [] else [findings[last]]
  }

  function Unknown(hash: Hash, baseline: seq<FindingFingerprint>): TextFinding -> bool {
    (f: TextFinding) => Fingerprint(hash, f) !in baseline
  }

  /** Every unknown finding is kept, as often as given and in order, and no other. */
  lemma {:induction false} NewOnesAreUnknown(hash: Hash, findings: seq<TextFinding>, baseline: seq<FindingFingerprint>)
    ensures Selects(findings, Unknown(hash, baseline), NewOnes(hash, findings, baseline))
  {
    if findings == [] {
      SelectsNothing(Unknown(hash, baseline));
    } else {
      var n := |findings| - 1;
      var out := NewOnes(hash, findings, baseline);
      NewOnesAreUnknown(hash, findings[..n], baseline);
      SelectsNext(findings, n, Unknown(hash, baseline), NewOnes(hash, findings[..n], baseline), out);
      SelectsAll(findings, Unknown(hash, baseline), out);
    }
  }

  /** Without a baseline every finding passes. */
  method FilterNew(hash: Hash, findings: seq<TextFinding>, baseline: Option<seq<FindingFingerprint>>)
    returns (out: seq<TextFinding>)
    ensures out == if baseline.None? then findings else NewOnes(hash, findings, baseline.value)
    ensures baseline.Some? ==> Selects(findings, Unknown(hash, baseline.value), out)
  {
    if baseline.None? {
      return findings;
    }
    NewOnesAreUnknown(hash, findings, baseline.value);
    out := [];
    for i := 0 to |findings|
      invariant out == NewOnes(hash, findings[..i], baseline.value)
    {
      assert findings[..i + 1][..i] == findings[..i];
      var known := Contains(hash, baseline.value, findings[i]);
      if !known {
        out := out + [findings[i]];
      }
    }
    assert findings[..|findings|] == findings;
  }

  // ----- Main results

  /** g is f again, with other numbers in a message whose literals are bordered by text. */
  ghost predicate Renumbered(f: TextFinding, g: TextFinding) {
    && g.RuleName == f.RuleName && g.NodeID == f.NodeID && g.SourceFile == f.SourceFile
    && g.MessageTemplateID == f.MessageTemplateID
    && (f.MessageTemplateID != "" || MessagesRenumbered(f.Message, g.Message))
  }

  ghost predicate MessagesRenumbered(a: string, b: string) {
    exists texts, nums, nums' ::
      |texts| == |nums| + 1 == |nums'| + 1 && Bordered(texts) && AllNumbers(nums) && AllNumbers(nums')
      && a == Render(texts, nums) && b == Render(texts, nums')
  }

  lemma RenumberedKeepsFingerprint(hash: Hash, f: TextFinding, g: TextFinding)
    requires Renumbered(f, g)
    ensures Fingerprint(hash, f) == Fingerprint(hash, g)
  {
    if f.MessageTemplateID == "" {
      var texts, nums, nums' :|
        |texts| == |nums| + 1 == |nums'| + 1 && Bordered(texts) && AllNumbers(nums) && AllNumbers(nums')
        && f.Message == Render(texts, nums) && g.Message == Render(texts, nums');
      NumbersDoNotMatter(texts, nums, nums');
    }
  }

  ghost predicate SeenBefore(earlier: seq<TextFinding>, g: TextFinding) {
    exists i :: 0 <= i < |earlier| && Renumbered(earlier[i], g)
  }

  /** Against a baseline saved from earlier findings, later ones that are those with other numbers are all hidden. */
  lemma {:induction false} RenumberedFindingsAreKnown(hash: Hash, earlier: seq<TextFinding>, later: seq<TextFinding>,
                                                      baseline: seq<FindingFingerprint>)
    requires |baseline| == |earlier| && forall i :: 0 <= i < |earlier| ==> baseline[i] == Fingerprint(hash, earlier[i])
    requires forall g :: g in later ==> SeenBefore(earlier, g)
    ensures NewOnes(hash, later, baseline) == []
  {
    if later != [] {
      var g := later[|later| - 1];
      assert g in later && forall x :: x in later[..|later| - 1] ==> x in later;
      RenumberedFindingsAreKnown(hash, earlier, later[..|later| - 1], baseline);
      var i :| 0 <= i < |earlier| && Renumbered(earlier[i], g);
      RenumberedKeepsFingerprint(hash, earlier[i], g);
    }
  }

  ghost predicate SamePlace(f: TextFinding, g: TextFinding) {
    f.RuleName == g.RuleName && f.NodeID == g.NodeID && f.SourceFile == g.SourceFile
  }

  /** The hash gives two different normal forms the same digest. */
  ghost predicate Collision(hash: Hash, a: string, b: string) {
    NormalizeMessage(a) != NormalizeMessage(b) && hash(NormalizeMessage(a)) == hash(NormalizeMessage(b))
  }

  /**
   * Nothing else is hidden. At the same place two findings match exactly when their
   * messages read the same or the hash collides on them; with template IDs the IDs
   * decide; one ID alone would have to be the digest of the other's message.
   */
  lemma DistinctMessagesStayNew(hash: Hash, f: TextFinding, g: TextFinding)
    ensures Fingerprint(hash, f) == Fingerprint(hash, g) <==>
            SamePlace(f, g) &&
            if f.MessageTemplateID == "" && g.MessageTemplateID == "" then
              Lexed(f.Message) == Lexed(g.Message) || Collision(hash, f.Message, g.Message)
            else if f.MessageTemplateID == "" then g.MessageTemplateID == DigestFromMessage(hash, f.Message)
            else if g.MessageTemplateID == "" then f.MessageTemplateID == DigestFromMessage(hash, g.Message)
            else f.MessageTemplateID == g.MessageTemplateID
  {
    SameNormalFormIff(f.Message, g.Message);
  }

  // ----- Records of the first schema version

  /** A record of the current version is read back as it was written. */
  lemma SavedFingerprintsLoad(hash: Hash, fp: FindingFingerprint)
    ensures Load(hash, StoredFingerprint(fp.RuleName, fp.NodeID, fp.SourceFile, fp.MessageDigest, "")) == fp
  {}

  /** A stored digest is kept, whatever message stands beside it. */
  lemma StoredDigestsAreKept(hash: Hash, r: StoredFingerprint)
    requires r.MessageDigest != ""
    ensures Load(hash, r) == FindingFingerprint(r.RuleName, r.NodeID, r.SourceFile, r.MessageDigest)
  {}

  /** What the first schema version stored for a finding: the full message and no digest. */
  function LegacyRecord(f: TextFinding): StoredFingerprint {
    StoredFingerprint(f.RuleName, f.NodeID, f.SourceFile, "", f.Message)
  }

  /** Sixteen lower-case hexadecimal digits. */
  predicate LooksLikeDigest(s: string) {
    |s| == 16 && forall i :: 0 <= i < |s| ==> IsDigit(s[i]) || 'a' <= s[i] <= 'f'
  }

  ghost predicate GivesDigests(hash: Hash) {
    forall s :: LooksLikeDigest(hash(s))
  }

  /**
   * A first-version record loads to the fingerprint of the same finding exactly when the finding has a message and no
   * template ID; one that looks like a digest would do only if it were the digest of the message.
   */
  lemma LegacyRecordsMatchIff(hash: Hash, f: TextFinding)
    requires GivesDigests(hash)
    ensures Load(hash, LegacyRecord(f)) == Fingerprint(hash, f) <==>
            f.Message != "" && f.MessageTemplateID in {"", DigestFromMessage(hash, f.Message)}
    ensures !LooksLikeDigest(f.MessageTemplateID) ==>
              (Load(hash, LegacyRecord(f)) == Fingerprint(hash, f) <==> f.Message != "" && f.MessageTemplateID == "")
  {
    assert LooksLikeDigest(DigestFromMessage(hash, f.Message));
  }

  /**
   * An unchanged finding whose rule has come to supply a template ID
   * is reported as new, and so is one without a message.
   */
  lemma UnchangedFindingsTurnNew(hash: Hash)
    requires GivesDigests(hash)
    ensures var f := Finding("fan_out", Warning, "n", "fan-out: 7 branches", 1.0, "fan_out.width", "");
            NewOnes(hash, [f], [Load(hash, LegacyRecord(f))]) == [f]
    ensures var f := Finding("fan_out", Warning, "n", "", 1.0, "", "");
            NewOnes(hash, [f], [Load(hash, LegacyRecord(f))]) == [f]
  {
    var f := Finding("fan_out", Warning, "n", "fan-out: 7 branches", 1.0, "fan_out.width", "");
    var g := Finding("fan_out", Warning, "n", "", 1.0, "", "");
    LegacyRecordsMatchIff(hash, f);
    LegacyRecordsMatchIff(hash, g);
    assert NewOnes(hash, [f][..0], [Load(hash, LegacyRecord(f))]) == [];
    assert NewOnes(hash, [g][..0], [Load(hash, LegacyRecord(g))]) == [];
  }
}
