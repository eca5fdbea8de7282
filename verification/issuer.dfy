/**
 * Signature issuer strings ("Root-CA00000003-XS00000020"): the copy the
 * chain code makes of them and the `strtok(copy, "-")` tokenisation that
 * names the certificates of the chain (source/cert.c).
 */
module Issuer {
  import opened Wrappers

  /** The root token every issuer string starts with. */
  const ROOT_PREFIX: string := "Root-"
  /** Size of the issuer copy buffer, terminator included. */
  const ISSUER_COPY_SIZE: nat := 0x40
  const DELIMITER: char := '-'

  /** The issuer starts with the root token and names something after it. */
  predicate HasRootPrefix(issuer: string)
  {
    |issuer| > |ROOT_PREFIX| && issuer[..|ROOT_PREFIX|] == ROOT_PREFIX
  }

  /** The first 63 characters of `t`: what snprintf leaves in a 0x40-byte
      buffer, terminator aside. */
  function Truncated(t: string): (c: string)
    ensures |c| == if |t| < ISSUER_COPY_SIZE then |t| else ISSUER_COPY_SIZE - 1
    ensures c <= t
  {
    if |t| < ISSUER_COPY_SIZE then t else t[..ISSUER_COPY_SIZE - 1]
  }

  /** The retrieval pass's copy, snprintf(copy, 0x40, "%s", issuer + 5):
      everything after the root token, cut to 63 characters. An issuer
      shorter than the root token (which no caller passes; C would read past
      its terminator) gives the empty copy. */
  function IssuerCopy(issuer: string): (c: string)
    ensures |issuer| >= |ROOT_PREFIX| ==>
      |c| == if |issuer| - |ROOT_PREFIX| < ISSUER_COPY_SIZE then |issuer| - |ROOT_PREFIX| else ISSUER_COPY_SIZE - 1
    ensures |issuer| < |ROOT_PREFIX| ==> c == []
    ensures forall i :: 0 <= i < |c| ==> c[i] == issuer[|ROOT_PREFIX| + i]
  {
    if |issuer| < |ROOT_PREFIX| then [] else Truncated(issuer[|ROOT_PREFIX|..])
  }

  /** What printf makes of a format when no argument follows: "%%" prints one
      '%', every other character prints itself. Any other conversion would
      read an argument that is not there, which is undefined; that is None. */
  function FormatNoArgs(fmt: string): (out: Option<string>)
    ensures '%' !in fmt ==> out == Some(fmt)
    decreases |fmt|
  {
    if |fmt| == 0 then Some([])
    else if fmt[0] != '%' then
      assert '%' !in fmt ==> '%' !in fmt[1..] && fmt == [fmt[0]] + fmt[1..];
      match FormatNoArgs(fmt[1..])
      case None => None
      case Some(t) => Some([fmt[0]] + t)
    else if |fmt| >= 2 && fmt[1] == '%' then
      match FormatNoArgs(fmt[2..])
      case None => None
      case Some(t) => Some(['%'] + t)
    else None
  }

  /** `t` written as a format that prints it: every '%' doubled. */
  function EscapePercent(t: string): string
  {
    if |t| == 0 then []
    else (if t[0] == '%' then "%%" else [t[0]]) + EscapePercent(t[1..])
  }

  /** Printing an escaped string gives the string back. */
  lemma {:induction false} FormatEscapeRoundTrip(t: string)
    ensures FormatNoArgs(EscapePercent(t)) == Some(t)
    decreases |t|
  {
    if |t| > 0 {
      var e := EscapePercent(t);
      FormatEscapeRoundTrip(t[1..]);
      if t[0] == '%' {
        assert e[2..] == EscapePercent(t[1..]);
      } else {
        assert e[1..] == EscapePercent(t[1..]);
      }
      assert t == [t[0]] + t[1..];
    }
  }

  /** The counting pass's copy, snprintf(copy, 0x40, issuer + 5): the tail of
      the issuer serves as the format itself. Where that is undefined the
      copy is taken to be empty. Without a '%' in the issuer it is the
      retrieval pass's copy. */
  function CountingCopy(issuer: string): (c: string)
    ensures '%' !in issuer ==> c == IssuerCopy(issuer)
    ensures |c| < ISSUER_COPY_SIZE
  {
    if |issuer| < |ROOT_PREFIX| then []
    else
      assert '%' !in issuer ==> '%' !in issuer[|ROOT_PREFIX|..];
      match FormatNoArgs(issuer[|ROOT_PREFIX|..])
      case None => []
      case Some(t) => Truncated(t)
  }

  /** "%%" in an issuer reaches the two copies differently: the counting
      copy holds one '%', the retrieval copy two. */
  lemma PercentCopiesDiffer()
    ensures CountingCopy("Root-A%%") == "A%"
    ensures IssuerCopy("Root-A%%") == "A%%"
  {
    assert "Root-A%%"[|ROOT_PREFIX|..] == "A%%";
    assert "A%%"[1..] == "%%";
    assert "%%"[2..] == [];
  }

  /** Length of the delimiter-free run at the start of `s`. */
  function RunLength(s: string): (n: nat)
    ensures n <= |s|
    ensures forall i :: 0 <= i < n ==> s[i] != DELIMITER
    ensures n < |s| ==> s[n] == DELIMITER
  {
    if |s| == 0 || s[0] == DELIMITER then 0 else 1 + RunLength(s[1..])
  }

  /** The tokens `strtok(s, "-")` returns one after another: the maximal
      delimiter-free runs of `s`, in order, empty ones skipped. */
  function Tokens(s: string): (ts: seq<string>)
    ensures forall i :: 0 <= i < |ts| ==> |ts[i]| > 0 && DELIMITER !in ts[i]
    decreases |s|
  {
    if |s| == 0 then []
    else if s[0] == DELIMITER then Tokens(s[1..])
    else
      var n := RunLength(s);
      assert forall i :: 0 <= i < n ==> s[..n][i] != DELIMITER;
      [s[..n]] + Tokens(s[n..])
  }

  /** Number of positions that start a token: a non-delimiter right after a
      delimiter, or at the very start when `afterDelimiter` holds there. */
  function TokenStarts(s: string, afterDelimiter: bool): nat
  {
    if |s| == 0 then 0
    else (if s[0] != DELIMITER && afterDelimiter then 1 else 0) + TokenStarts(s[1..], s[0] == DELIMITER)
  }

  /** `t` occurs in `s` at `p` as a whole run: it is preceded by the start
      of `s` or a delimiter, and followed by a delimiter or the end of `s`. */
  predicate MaximalRunAt(s: string, p: nat, t: string)
  {
    && p + |t| <= |s|
    && s[p..p + |t|] == t
    && (p == 0 || s[p - 1] == DELIMITER)
    && (p + |t| == |s| || s[p + |t|] == DELIMITER)
  }

  /** Adds `k` to every position. */
  function Shift(ps: seq<nat>, k: nat): (qs: seq<nat>)
    ensures |qs| == |ps|
    ensures forall i :: 0 <= i < |ps| ==> qs[i] == ps[i] + k
  {
    seq(|ps|, i requires 0 <= i < |ps| => ps[i] + k)
  }

  /** Where each token of `Tokens(s)` begins in `s`. */
  function TokenOffsets(s: string): seq<nat>
    decreases |s|
  {
    if |s| == 0 then []
    else if s[0] == DELIMITER then Shift(TokenOffsets(s[1..]), 1)
    else
      var n := RunLength(s);
      [0] + Shift(TokenOffsets(s[n..]), n)
  }

  /** A whole run of a suffix is a whole run of the string, unless it sits at
      the suffix's start without a delimiter in front. */
  lemma RunInSuffix(s: string, k: nat, p: nat, t: string)
    requires k <= |s|
    requires MaximalRunAt(s[k..], p, t)
    requires p > 0 || k == 0 || s[k - 1] == DELIMITER
    ensures MaximalRunAt(s, p + k, t)
  {
    assert s[k..][p..p + |t|] == s[p + k..p + k + |t|];
    if p > 0 {
      assert s[k..][p - 1] == s[p + k - 1];
    }
    if p + |t| < |s[k..]| {
      assert s[k..][p + |t|] == s[p + k + |t|];
    }
  }

  /** Every token of `s` is a whole run at its offset, offsets increasing. */
  predicate TokensPlaced(s: string)
  {
    var ts := Tokens(s);
    var ps := TokenOffsets(s);
    && |ps| == |ts|
    && (forall i :: 0 <= i < |ts| ==> MaximalRunAt(s, ps[i], ts[i]))
    && (forall i, j :: 0 <= i < j < |ts| ==> ps[i] < ps[j])
  }

  /** The step for a string starting with a delimiter. */
  lemma PlacedAfterDelimiter(s: string)
    requires |s| > 0 && s[0] == DELIMITER
    requires TokensPlaced(s[1..])
    ensures TokensPlaced(s)
  {
    var rest := s[1..];
    assert Tokens(s) == Tokens(rest);
    assert TokenOffsets(s) == Shift(TokenOffsets(rest), 1);
    forall i | 0 <= i < |Tokens(s)|
      ensures MaximalRunAt(s, TokenOffsets(s)[i], Tokens(s)[i])
    {
      RunInSuffix(s, 1, TokenOffsets(rest)[i], Tokens(rest)[i]);
    }
  }

  /** The leading run of `s` is a whole run at position 0. */
  lemma LeadingRunPlaced(s: string)
    requires |s| > 0 && s[0] != DELIMITER
    ensures MaximalRunAt(s, 0, s[..RunLength(s)])
  {
    assert s[0..RunLength(s)] == s[..RunLength(s)];
  }

  /** After a delimiter no token starts at position 0. */
  lemma OffsetsPastDelimiter(s: string)
    requires |s| > 0 && s[0] == DELIMITER
    ensures forall i :: 0 <= i < |TokenOffsets(s)| ==> TokenOffsets(s)[i] > 0
  {
    assert TokenOffsets(s) == Shift(TokenOffsets(s[1..]), 1);
  }

  /** Putting 0 in front of increasing positions shifted by `n > 0` keeps
      them increasing. */
  lemma PrependKeepsIncreasing(qs: seq<nat>, n: nat)
    requires n > 0
    requires forall i, j :: 0 <= i < j < |qs| ==> qs[i] < qs[j]
    ensures var ps := [0] + Shift(qs, n);
      forall i, j :: 0 <= i < j < |ps| ==> ps[i] < ps[j]
  {
    var ps := [0] + Shift(qs, n);
    forall i, j | 0 <= i < j < |ps|
      ensures ps[i] < ps[j]
    {
      assert ps[j] == qs[j - 1] + n;
      if i > 0 {
        assert ps[i] == qs[i - 1] + n;
      }
    }
  }

  /** Whole runs of the suffix after `n` that do not start it are whole runs
      of `s`, `n` further on. */
  lemma RunsInSuffix(s: string, n: nat, ts: seq<string>, ps: seq<nat>)
    requires n <= |s| && |ps| == |ts|
    requires forall i :: 0 <= i < |ts| ==> MaximalRunAt(s[n..], ps[i], ts[i]) && ps[i] > 0
    ensures forall i :: 0 <= i < |ts| ==> MaximalRunAt(s, ps[i] + n, ts[i])
  {
    forall i | 0 <= i < |ts|
      ensures MaximalRunAt(s, ps[i] + n, ts[i])
    {
      RunInSuffix(s, n, ps[i], ts[i]);
    }
  }

  /** A leading whole run followed by whole runs further on, all placed. */
  lemma PlacedCons(s: string, n: nat, rts: seq<string>, qs: seq<nat>)
    requires 0 < n <= |s| && |qs| == |rts|
    requires MaximalRunAt(s, 0, s[..n])
    requires forall i :: 0 <= i < |rts| ==> MaximalRunAt(s, qs[i] + n, rts[i])
    ensures var ts := [s[..n]] + rts; var ps := [0] + Shift(qs, n);
      forall i :: 0 <= i < |ts| ==> MaximalRunAt(s, ps[i], ts[i])
  {
    var ts := [s[..n]] + rts;
    var ps := [0] + Shift(qs, n);
    forall i | 0 <= i < |ts|
      ensures MaximalRunAt(s, ps[i], ts[i])
    {
      if i > 0 {
        assert ps[i] == qs[i - 1] + n && ts[i] == rts[i - 1];
      }
    }
  }

  /** The step for a string starting with a run. */
  lemma PlacedAfterRun(s: string)
    requires |s| > 0 && s[0] != DELIMITER
    requires TokensPlaced(s[RunLength(s)..])
    ensures TokensPlaced(s)
  {
    var n := RunLength(s);
    var rest := s[n..];
    var qs := TokenOffsets(rest);
    var rts := Tokens(rest);
    if n < |s| {
      OffsetsPastDelimiter(rest);
    }
    RunsInSuffix(s, n, rts, qs);
    LeadingRunPlaced(s);
    PlacedCons(s, n, rts, qs);
    PrependKeepsIncreasing(qs, n);
    assert Tokens(s) == [s[..n]] + rts;
    assert TokenOffsets(s) == [0] + Shift(qs, n);
  }

  /** strtok returns exactly the maximal delimiter-free runs: each token is a
      whole run of `s`, at strictly increasing positions. Together with
      TokenCountIsTokenStarts (one token per run start), no run is missed. */
  lemma {:induction false} TokensAreMaximalRuns(s: string)
    ensures |TokenOffsets(s)| == |Tokens(s)|
    ensures forall i :: 0 <= i < |Tokens(s)| ==> MaximalRunAt(s, TokenOffsets(s)[i], Tokens(s)[i])
    ensures forall i, j :: 0 <= i < j < |Tokens(s)| ==> TokenOffsets(s)[i] < TokenOffsets(s)[j]
    decreases |s|
  {
    if |s| == 0 {
    } else if s[0] == DELIMITER {
      TokensAreMaximalRuns(s[1..]);
      PlacedAfterDelimiter(s);
    } else {
      TokensAreMaximalRuns(s[RunLength(s)..]);
      PlacedAfterRun(s);
    }
  }

  /** `s` with every delimiter removed. */
  function WithoutDelimiters(s: string): string
  {
    if |s| == 0 then []
    else (if s[0] == DELIMITER then [] else [s[0]]) + WithoutDelimiters(s[1..])
  }

  function Concat(ts: seq<string>): string
  {
    if |ts| == 0 then [] else ts[0] + Concat(ts[1..])
  }

  /** Inside a delimiter-free run, only its first character can start a token. */
  lemma {:induction false} StartsInRun(s: string, k: nat, afterDelimiter: bool)
    requires 0 < k <= |s|
    requires forall i :: 0 <= i < k ==> s[i] != DELIMITER
    ensures TokenStarts(s, afterDelimiter) == (if afterDelimiter then 1 else 0) + TokenStarts(s[k..], false)
    decreases k
  {
    if k > 1 {
      StartsInRun(s[1..], k - 1, false);
      assert s[1..][k - 1..] == s[k..];
    }
  }

  /** strtok yields one token per token start: the number of tokens is the
      number of positions where a token begins. */
  lemma {:induction false} TokenCountIsTokenStarts(s: string)
    ensures |Tokens(s)| == TokenStarts(s, true)
    decreases |s|
  {
    if |s| == 0 {
    } else if s[0] == DELIMITER {
      TokenCountIsTokenStarts(s[1..]);
    } else {
      var n := RunLength(s);
      TokenCountIsTokenStarts(s[n..]);
      StartsInRun(s, n, true);
      if n < |s| {
        assert TokenStarts(s[n..], false) == TokenStarts(s[n..], true);
      }
    }
  }

  /** A delimiter-free prefix survives delimiter removal unchanged. */
  lemma {:induction false} WithoutDelimitersOfRun(s: string, k: nat)
    requires k <= |s|
    requires forall i :: 0 <= i < k ==> s[i] != DELIMITER
    ensures WithoutDelimiters(s) == s[..k] + WithoutDelimiters(s[k..])
    decreases k
  {
    if k > 0 {
      WithoutDelimitersOfRun(s[1..], k - 1);
      assert s[1..][k - 1..] == s[k..];
      assert s[..k] == [s[0]] + s[1..][..k - 1];
    }
  }

  /** Tokenising loses nothing but delimiters: the tokens, put back together
      in order, are the input with its delimiters removed. */
  lemma {:induction false} TokensKeepContent(s: string)
    ensures Concat(Tokens(s)) == WithoutDelimiters(s)
    decreases |s|
  {
    if |s| == 0 {
    } else if s[0] == DELIMITER {
      TokensKeepContent(s[1..]);
    } else {
      var n := RunLength(s);
      TokensKeepContent(s[n..]);
      WithoutDelimitersOfRun(s, n);
      assert Tokens(s) == [s[..n]] + Tokens(s[n..]);
      assert ([s[..n]] + Tokens(s[n..]))[1..] == Tokens(s[n..]);
    }
  }

  /** Tokens are separated by delimiters, so a string of length L has at most
      (L + 1) / 2 token starts. */
  lemma {:induction false} TokenStartsBound(s: string, afterDelimiter: bool)
    ensures TokenStarts(s, afterDelimiter) <= (if afterDelimiter then (|s| + 1) / 2 else |s| / 2)
    decreases |s|
  {
    if |s| > 0 {
      TokenStartsBound(s[1..], s[0] == DELIMITER);
    }
  }

  /** The certificate names of an issuer, in chain order. */
  function IssuerTokens(issuer: string): seq<string>
  {
    Tokens(IssuerCopy(issuer))
  }

  /** certGetCertificateCountInSignatureIssuer: 0 for the empty string,
      otherwise the number of tokens of the counting copy. It is the number
      of token starts in that copy and never exceeds 32, so the `u32` cannot
      overflow. */
  function CertificateCountInIssuer(issuer: string): (count: nat)
    ensures |issuer| == 0 ==> count == 0
    ensures |issuer| > 0 ==> count == TokenStarts(CountingCopy(issuer), true)
    ensures count <= ISSUER_COPY_SIZE / 2
  {
    if |issuer| == 0 then 0
    else
      var c := CountingCopy(issuer);
      TokenCountIsTokenStarts(c);
      TokenStartsBound(c, true);
      |Tokens(c)|
  }

  /** For an issuer without '%', the counting pass and the retrieval pass
      see the same names: the count is the number of names the chain is
      built from. */
  lemma CountMatchesTokens(issuer: string)
    requires |issuer| > 0
    requires '%' !in issuer
    ensures CertificateCountInIssuer(issuer) == |IssuerTokens(issuer)|
  {
    assert CountingCopy(issuer) == IssuerCopy(issuer);
    TokenCountIsTokenStarts(IssuerCopy(issuer));
  }

  /** The run at the start of `s` ends exactly at the first delimiter. */
  lemma {:induction false} RunLengthOfRun(s: string, k: nat)
    requires k <= |s|
    requires forall i :: 0 <= i < k ==> s[i] != DELIMITER
    requires k == |s| || s[k] == DELIMITER
    ensures RunLength(s) == k
    decreases k
  {
    if k > 0 {
      RunLengthOfRun(s[1..], k - 1);
    }
  }

  /** A leading run of `k` non-delimiters that ends at a delimiter or at the
      end of `s` is the first token. */
  lemma FirstTokenIsRun(s: string, k: nat)
    requires 0 < k <= |s|
    requires forall i :: 0 <= i < k ==> s[i] != DELIMITER
    requires k == |s| || s[k] == DELIMITER
    ensures Tokens(s) == [s[..k]] + Tokens(s[k..])
  {
    RunLengthOfRun(s, k);
  }

  /** Two names joined by one delimiter tokenise back to the two names. */
  lemma TokensOfTwoNames(a: string, b: string)
    requires |a| > 0 && DELIMITER !in a
    requires |b| > 0 && DELIMITER !in b
    ensures Tokens(a + [DELIMITER] + b) == [a, b]
  {
    var s := a + [DELIMITER] + b;
    FirstTokenIsRun(s, |a|);
    assert s[..|a|] == a;
    var rest := s[|a|..];
    assert rest == [DELIMITER] + b;
    assert Tokens(rest) == Tokens(b) by {
      assert rest[1..] == b;
    }
    FirstTokenIsRun(b, |b|);
    assert b[..|b|] == b;
    assert Tokens(b[|b|..]) == [] by {
      assert b[|b|..] == [];
    }
  }

  /** "Root-CA00000003-XS00000020" names two certificates, in order. */
  lemma ExampleIssuerTokens()
    ensures HasRootPrefix("Root-CA00000003-XS00000020")
    ensures IssuerTokens("Root-CA00000003-XS00000020") == ["CA00000003", "XS00000020"]
    ensures CertificateCountInIssuer("Root-CA00000003-XS00000020") == 2
    ensures '%' !in "Root-CA00000003-XS00000020"
  {
    var issuer := "Root-CA00000003-XS00000020";
    var body := "CA00000003" + [DELIMITER] + "XS00000020";
    assert issuer == ROOT_PREFIX + body;
    assert '%' !in "CA00000003" && '%' !in "XS00000020";
    assert '%' !in issuer;
    assert issuer[|ROOT_PREFIX|..] == body;
    assert IssuerCopy(issuer) == body;
    TokensOfTwoNames("CA00000003", "XS00000020");
    CountMatchesTokens(issuer);
  }

  /** `n` percent signs. */
  function Percents(n: nat): (t: string)
    ensures |t| == n && DELIMITER !in t
    ensures forall i :: 0 <= i < n ==> t[i] == '%'
  {
    seq(n, _ => '%')
  }

  /** Escaping distributes over concatenation. */
  lemma {:induction false} EscapeAppend(a: string, b: string)
    ensures EscapePercent(a + b) == EscapePercent(a) + EscapePercent(b)
    decreases |a|
  {
    if |a| == 0 {
      assert a + b == b;
    } else {
      EscapeAppend(a[1..], b);
      var head := if a[0] == '%' then "%%" else [a[0]];
      assert (a + b)[0] == a[0] && (a + b)[1..] == a[1..] + b;
      assert EscapePercent(a + b) == head + EscapePercent(a[1..] + b);
      assert EscapePercent(a) == head + EscapePercent(a[1..]);
    }
  }

  /** Escaping `n` percent signs doubles them. */
  lemma {:induction false} EscapePercents(n: nat)
    ensures EscapePercent(Percents(n)) == Percents(2 * n)
  {
    if n > 0 {
      EscapePercents(n - 1);
      assert Percents(n)[1..] == Percents(n - 1);
      assert Percents(2 * n) == "%%" + Percents(2 * (n - 1));
    }
  }

  /** The issuer of PercentIssuerOverCounts. */
  function PercentIssuer(): string
  {
    ROOT_PREFIX + Percents(64) + "-B"
  }

  /** 32 '%' and "-B", escaped, are its tail after "Root-". */
  lemma PercentIssuerTail()
    ensures EscapePercent(Percents(32) + "-B") == Percents(64) + "-B"
  {
    EscapeAppend(Percents(32), "-B");
    EscapePercents(32);
    assert EscapePercent("-B") == "-B" by {
      assert "-B"[1..] == "B";
      assert "B"[1..] == [];
    }
  }

  /** Its counting copy prints 32 '%' and "-B". */
  lemma PercentIssuerCountingCopy()
    ensures CountingCopy(PercentIssuer()) == Percents(32) + [DELIMITER] + "B"
  {
    var printed := Percents(32) + "-B";
    PercentIssuerTail();
    FormatEscapeRoundTrip(printed);
    assert FormatNoArgs(Percents(64) + "-B") == Some(printed);
    assert PercentIssuer()[|ROOT_PREFIX|..] == Percents(64) + "-B";
    assert |printed| < ISSUER_COPY_SIZE;
  }

  /** Its retrieval copy is 63 '%'. */
  lemma PercentIssuerRetrievalCopy()
    ensures IssuerCopy(PercentIssuer()) == Percents(63)
  {
  }

  /** An issuer full of "%%" reaches the two passes differently. After
      "Root-", 64 '%' and "-B" print as 32 '%' and "-B": the counting pass
      sees two names. The retrieval copy is cut to 63 '%': one name. */
  lemma PercentIssuerOverCounts()
    ensures CertificateCountInIssuer(PercentIssuer()) == 2
    ensures IssuerTokens(PercentIssuer()) == [Percents(63)]
  {
    var printed := Percents(32) + [DELIMITER] + "B";
    PercentIssuerCountingCopy();
    TokensOfTwoNames(Percents(32), "B");
    TokenCountIsTokenStarts(printed);
    PercentIssuerRetrievalCopy();
    FirstTokenIsRun(Percents(63), 63);
    assert Percents(63)[..63] == Percents(63);
    assert Tokens(Percents(63)[63..]) == [];
  }
}
