/**
 * Symbol names: the trade profile's form BASE-QUOTE-SWAP, and the form an exchange uses. Case mapping and
 * trimming are those of ASCII strings.
 */
module SymbolNames {
  import opened Filters

  const SWAP := "-SWAP"
  const QUOTES := ["USDT", "USDC", "USD"]
  const CONTRACTS := ["-PERP", "-PERPETUAL", "-FUTURES"]

  function UpperChar(c: char): char { if 'a' <= c <= 'z' then c - 'a' + 'A' else c }

  function Upper(s: string): string { seq(|s|, i requires 0 <= i < |s| => UpperChar(s[i])) }

  predicate IsSpace(c: char) { c in " \t\n\r" || c == '\U{0B}' || c == '\U{0C}' }

  function TrimLeft(s: string): string { if s != "" && IsSpace(s[0]) then TrimLeft(s[1..]) else s }

  function TrimRight(s: string): string {
    if s != "" && IsSpace(s[|s| - 1]) then TrimRight(s[..|s| - 1]) else s
  }

  function Trim(s: string): string { TrimRight(TrimLeft(s)) }

  predicate EndsWith(s: string, suffix: string) { |s| >= |suffix| && s[|s| - |suffix|..] == suffix }

  /** Removes a suffix, if it is there. */
  function Without(s: string, suffix: string): string {
    if EndsWith(s, suffix) then s[..|s| - |suffix|] else s
  }

  /** Turns the first slash into a dash. */
  function DashFirst(s: string): (r: string)
    ensures |r| == |s|
  {
    if s == "" then "" else if s[0] == '/' then "-" + s[1..] else [s[0]] + DashFirst(s[1..])
  }

  /** Splits off the first quote asset, in order, that ends `s` and leaves a base. */
  function WithQuote(s: string, quotes: seq<string>): string {
    if quotes == [] then s + SWAP
    else if EndsWith(s, quotes[0]) && |s| > |quotes[0]| then
      s[..|s| - |quotes[0]|] + "-" + quotes[0] + SWAP
    else WithQuote(s, quotes[1..])
  }

  /** The trade profile's form of a symbol. */
  function NormalizeSymbol(symbol: string): string {
    var trimmed := Upper(Trim(symbol));
    if trimmed == "" then ""
    else
      var normalized := DashFirst(trimmed);
      if EndsWith(normalized, SWAP) then normalized
      else if '-' in normalized then normalized + SWAP
      else WithQuote(normalized, QUOTES)
  }

  /** The part before the first colon. */
  function BeforeColon(s: string): string {
    if s == "" || s[0] == ':' then "" else [s[0]] + BeforeColon(s[1..])
  }

  function DashAll(s: string): string {
    if s == "" then "" else [if s[0] == '/' then '-' else s[0]] + DashAll(s[1..])
  }

  predicate IsNotDash(c: char) { c != '-' }

  function NoDashes(s: string): string { Filter(s, IsNotDash) }

  /** Removes the first contract suffix that ends `s`. */
  function WithoutContract(s: string, contracts: seq<string>): string {
    if contracts == [] then s
    else if EndsWith(s, contracts[0]) then Without(s, contracts[0])
    else WithoutContract(s, contracts[1..])
  }

  /** The exchange's form of a symbol. */
  function ForExchange(exchange: string, symbol: string): string {
    if symbol == "" then symbol
    else
      var cleaned := DashAll(BeforeColon(Upper(symbol)));
      if exchange == "okx" then
        if EndsWith(cleaned, SWAP) then cleaned
        else if '-' in cleaned then cleaned + SWAP else cleaned
      else NoDashes(WithoutContract(Without(cleaned, SWAP), CONTRACTS))
  }

  // ---------- Round trip ----------

  /** Non-empty, upper-case letters and digits only. */
  predicate IsPlain(s: string) { s != "" && forall c :: c in s ==> 'A' <= c <= 'Z' || '0' <= c <= '9' }

  lemma {:induction false} TrimPlain(s: string)
    requires s != "" ==> !IsSpace(s[0]) && !IsSpace(s[|s| - 1])
    ensures Trim(s) == s
  {
  }

  lemma {:induction false} NoSlashToDash(s: string)
    requires '/' !in s
    ensures DashFirst(s) == s && DashAll(s) == s
  {
    if s != "" {
      NoSlashToDash(s[1..]);
    }
  }

  lemma {:induction false} NoColonToCut(s: string)
    requires ':' !in s
    ensures BeforeColon(s) == s
  {
    if s != "" {
      NoColonToCut(s[1..]);
    }
  }

  lemma NoDashesToDrop(s: string)
    requires '-' !in s
    ensures NoDashes(s) == s
  {
    FilterAllIff(s, IsNotDash);
  }

  lemma UpperFixed(s: string)
    requires forall c :: c in s ==> UpperChar(c) == c
    ensures Upper(s) == s
  {
    assert forall i :: 0 <= i < |s| ==> s[i] in s;
  }

  lemma SuffixOfConcat(a: string, suffix: string)
    ensures EndsWith(a + suffix, suffix) && Without(a + suffix, suffix) == a
  {
    assert (a + suffix)[|a|..] == suffix && (a + suffix)[..|a|] == a;
  }

  /** A string whose last character differs from the suffix's does not end with it. */
  lemma LastDiffers(s: string, suffix: string)
    requires suffix != "" && (s == "" || s[|s| - 1] != suffix[|suffix| - 1])
    ensures !EndsWith(s, suffix)
  {
    assert |s| >= |suffix| ==> s[|s| - |suffix|..][|suffix| - 1] == s[|s| - 1];
  }

  lemma CleanedPlain(s: string)
    requires forall c :: c in s ==> UpperChar(c) == c && c != ':' && c != '/'
    ensures DashAll(BeforeColon(Upper(s))) == s
  {
    UpperFixed(s);
    NoColonToCut(s);
    NoSlashToDash(s);
  }

  lemma {:induction false} NoContractSuffix(s: string, contracts: seq<string>)
    requires forall c :: c in contracts ==> c != "" && (s == "" || s[|s| - 1] != c[|c| - 1])
    ensures WithoutContract(s, contracts) == s
  {
    if contracts != [] {
      assert contracts[0] in contracts;
      LastDiffers(s, contracts[0]);
      NoContractSuffix(s, contracts[1..]);
    }
  }

  predicate IsQuote(q: string) { q == "USDT" || q == "USDC" || q == "USD" }

  lemma PairWithoutDashes(base: string, quote: string)
    requires '-' !in base && '-' !in quote
    ensures NoDashes(base + "-" + quote) == base + quote
  {
    FilterConcat(base + "-", quote, IsNotDash);
    FilterAppend(base, '-', IsNotDash);
    NoDashesToDrop(base);
    NoDashesToDrop(quote);
  }

  lemma PairHasNoContract(base: string, quote: string)
    requires IsQuote(quote)
    ensures WithoutContract(base + "-" + quote, CONTRACTS) == base + "-" + quote
  {
    var pair := base + "-" + quote;
    assert pair[|pair| - 1] == quote[|quote| - 1];
    forall c | c in CONTRACTS ensures c != "" && pair[|pair| - 1] != c[|c| - 1] {
      assert c == "-PERP" || c == "-PERPETUAL" || c == "-FUTURES";
    }
    NoContractSuffix(pair, CONTRACTS);
  }

  lemma QuoteIsPlain(quote: string)
    requires IsQuote(quote)
    ensures IsPlain(quote)
  {
  }

  /** The exchange form undoes the profile form, on every exchange but okx. */
  lemma ExchangeUndoesProfile(exchange: string, base: string, quote: string)
    requires exchange != "okx" && IsPlain(base) && IsQuote(quote)
    ensures ForExchange(exchange, base + "-" + quote + SWAP) == base + quote
  {
    var pair := base + "-" + quote;
    QuoteIsPlain(quote);
    PairWithoutDashes(base, quote);
    PairHasNoContract(base, quote);
    assert forall c :: c in pair ==> c in base || c == '-' || c in quote;
    assert forall c :: c in pair + SWAP ==> c in pair || c in SWAP;
    assert forall c :: c in SWAP ==> UpperChar(c) == c && c != ':' && c != '/';
    CleanedPlain(pair + SWAP);
    SuffixOfConcat(pair, SWAP);
  }

  /** The first listed quote that ends `s` splits it. */
  lemma QuoteFound(base: string, quote: string)
    requires base != "" && IsQuote(quote)
    ensures WithQuote(base + quote, QUOTES) == base + "-" + quote + SWAP
  {
    var s := base + quote;
    SuffixOfConcat(base, quote);
    assert s[|s| - 1] == quote[|quote| - 1];
    assert QUOTES[1..] == ["USDC", "USD"] && QUOTES[1..][1..] == ["USD"];
    if quote != "USDT" {
      LastDiffers(s, "USDT");
      assert WithQuote(s, QUOTES) == WithQuote(s, ["USDC", "USD"]);
      if quote != "USDC" {
        LastDiffers(s, "USDC");
        assert WithQuote(s, ["USDC", "USD"]) == WithQuote(s, ["USD"]);
      }
    }
  }

  lemma PlainIsItself(s: string)
    requires IsPlain(s)
    ensures Upper(Trim(s)) == s && DashFirst(s) == s && '-' !in s && !EndsWith(s, SWAP)
  {
    assert s[0] in s && s[|s| - 1] in s;
    TrimPlain(s);
    UpperFixed(s);
    NoSlashToDash(s);
    NoDashNoEnd(s, SWAP);
  }

  /** The profile form undoes the exchange form. */
  lemma ProfileUndoesExchange(base: string, quote: string)
    requires IsPlain(base) && IsQuote(quote)
    ensures NormalizeSymbol(base + quote) == base + "-" + quote + SWAP
  {
    QuoteIsPlain(quote);
    assert forall c :: c in base + quote ==> c in base || c in quote;
    PlainIsItself(base + quote);
    QuoteFound(base, quote);
  }

  // ---------- Idempotence ----------

  lemma {:induction false} DashAllMeaning(s: string)
    ensures '/' !in DashAll(s)
    ensures forall c :: c in DashAll(s) ==> c == '-' || c in s
  {
    if s != "" {
      DashAllMeaning(s[1..]);
    }
  }

  lemma {:induction false} BeforeColonMeaning(s: string)
    ensures ':' !in BeforeColon(s)
    ensures forall c :: c in BeforeColon(s) ==> c in s
  {
    if s != "" && s[0] != ':' {
      BeforeColonMeaning(s[1..]);
    }
  }

  lemma CleanedMeaning(symbol: string)
    ensures var cleaned := DashAll(BeforeColon(Upper(symbol)));
            forall c :: c in cleaned ==> UpperChar(c) == c && c != ':' && c != '/'
  {
    var u := Upper(symbol);
    forall c | c in u ensures UpperChar(c) == c {
      var i :| 0 <= i < |u| && u[i] == c;
      assert c == UpperChar(symbol[i]);
    }
    BeforeColonMeaning(u);
    DashAllMeaning(BeforeColon(u));
  }

  lemma {:induction false} WithoutContractMembers(s: string, contracts: seq<string>)
    ensures forall c :: c in WithoutContract(s, contracts) ==> c in s
  {
    if contracts != [] && !EndsWith(s, contracts[0]) {
      WithoutContractMembers(s, contracts[1..]);
    }
  }

  lemma {:induction false} NoDashNoSuffix(s: string, contracts: seq<string>)
    requires '-' !in s && forall c :: c in contracts ==> c != "" && c[0] == '-'
    ensures WithoutContract(s, contracts) == s
  {
    if contracts != [] {
      assert contracts[0] in contracts;
      NoDashNoEnd(s, contracts[0]);
      assert forall c :: c in contracts[1..] ==> c in contracts;
      NoDashNoSuffix(s, contracts[1..]);
    }
  }

  lemma NoDashNoEnd(s: string, suffix: string)
    requires '-' !in s && suffix != "" && suffix[0] == '-'
    ensures !EndsWith(s, suffix)
  {
    assert |s| >= |suffix| ==> s[|s| - |suffix|..][0] == s[|s| - |suffix|];
  }

  /** Normalising for an exchange twice is normalising once, for every string. */
  lemma ForExchangeIdempotent(exchange: string, symbol: string)
    ensures ForExchange(exchange, ForExchange(exchange, symbol)) == ForExchange(exchange, symbol)
  {
    var cleaned, r := DashAll(BeforeColon(Upper(symbol))), ForExchange(exchange, symbol);
    CleanedMeaning(symbol);
    if r != "" {
      if exchange == "okx" {
        assert forall c :: c in cleaned + SWAP ==> c in cleaned || c in SWAP;
        assert forall c :: c in SWAP ==> UpperChar(c) == c && c != ':' && c != '/';
        CleanedPlain(r);
        SuffixOfConcat(cleaned, SWAP);
      } else {
        var stripped := WithoutContract(Without(cleaned, SWAP), CONTRACTS);
        WithoutContractMembers(Without(cleaned, SWAP), CONTRACTS);
        FilterMembers(stripped, IsNotDash);
        CleanedPlain(r);
        NoDashNoEnd(r, SWAP);
        NoDashNoSuffix(r, CONTRACTS);
        NoDashesToDrop(r);
      }
    }
  }

  function Slashes(s: string): nat { if s == "" then 0 else (if s[0] == '/' then 1 else 0) + Slashes(s[1..]) }

  lemma {:induction false} SlashesMeaning(s: string)
    ensures Slashes(s) > 0 <==> '/' in s
    ensures Slashes(DashFirst(s)) == if Slashes(s) == 0 then 0 else Slashes(s) - 1
    ensures '/' in s ==> DashFirst(s) != s && '-' in DashFirst(s)
  {
    if s != "" {
      SlashesMeaning(s[1..]);
      if s[0] == '/' {
        assert DashFirst(s)[0] == '-' && DashFirst(s)[1..] == s[1..];
      } else {
        assert DashFirst(s)[1..] == DashFirst(s[1..]);
      }
    }
  }

  lemma {:induction false} SlashesConcat(a: string, b: string)
    ensures Slashes(a + b) == Slashes(a) + Slashes(b)
  {
    if a == "" {
      assert a + b == b;
    } else {
      SlashesConcat(a[1..], b);
      assert (a + b)[1..] == a[1..] + b;
    }
  }

  lemma {:induction false} UpperKeepsSlashes(s: string)
    ensures Slashes(Upper(s)) == Slashes(s)
  {
    if s != "" {
      UpperKeepsSlashes(s[1..]);
      assert Upper(s)[1..] == Upper(s[1..]);
    }
  }

  lemma {:induction false} TrimLeftMeaning(s: string)
    ensures Slashes(TrimLeft(s)) == Slashes(s)
    ensures TrimLeft(s) != "" ==> !IsSpace(TrimLeft(s)[0])
  {
    if s != "" && IsSpace(s[0]) {
      TrimLeftMeaning(s[1..]);
    }
  }

  lemma {:induction false} TrimRightMeaning(s: string)
    ensures Slashes(TrimRight(s)) == Slashes(s)
    ensures TrimRight(s) <= s
    ensures TrimRight(s) != "" ==> !IsSpace(TrimRight(s)[|TrimRight(s)| - 1])
  {
    if s != "" && IsSpace(s[|s| - 1]) {
      TrimRightMeaning(s[..|s| - 1]);
      SlashesConcat(s[..|s| - 1], [s[|s| - 1]]);
      assert s == s[..|s| - 1] + [s[|s| - 1]];
    }
  }

  /** Upper-case, trimmed at the front, and not empty. */
  predicate IsTidy(s: string) { s != "" && !IsSpace(s[0]) && forall c :: c in s ==> UpperChar(c) == c }

  lemma {:induction false} DashFirstMembers(s: string)
    ensures forall c :: c in DashFirst(s) ==> c == '-' || c in s
  {
    if s != "" && s[0] != '/' {
      DashFirstMembers(s[1..]);
    }
  }

  lemma UpperTrimIsTidy(symbol: string)
    requires Trim(symbol) != ""
    ensures IsTidy(Upper(Trim(symbol))) && Slashes(Upper(Trim(symbol))) == Slashes(symbol)
  {
    var t := Trim(symbol);
    TrimLeftMeaning(symbol);
    TrimRightMeaning(TrimLeft(symbol));
    UpperKeepsSlashes(t);
    assert t[0] == TrimLeft(symbol)[0];
    assert forall i :: 0 <= i < |t| ==> UpperChar(Upper(t)[i]) == Upper(t)[i];
  }

  lemma DashFirstKeepsTidy(s: string)
    requires IsTidy(s)
    ensures IsTidy(DashFirst(s))
  {
    DashFirstMembers(s);
  }

  /** A tidy string with a tidy, slash-free tail is tidy and has the same slashes. */
  lemma TailKeepsTidy(s: string, tail: string)
    requires IsTidy(s) && '/' !in tail && forall c :: c in tail ==> UpperChar(c) == c
    ensures IsTidy(s + tail) && Slashes(s + tail) == Slashes(s)
  {
    SlashesConcat(s, tail);
    SlashesMeaning(tail);
    assert forall c :: c in s + tail ==> c in s || c in tail;
  }

  lemma WithSwap(s: string)
    requires IsTidy(s)
    ensures IsTidy(s + SWAP) && Slashes(s + SWAP) == Slashes(s) && EndsWith(s + SWAP, SWAP)
  {
    TailKeepsTidy(s, SWAP);
    SuffixOfConcat(s, SWAP);
  }

  lemma {:induction false} WithQuoteShape(s: string, quotes: seq<string>)
    requires IsTidy(s) && forall q :: q in quotes ==> IsQuote(q)
    ensures var r := WithQuote(s, quotes); IsTidy(r) && Slashes(r) == Slashes(s) && EndsWith(r, SWAP)
  {
    if quotes == [] {
      WithSwap(s);
    } else {
      var q := quotes[0];
      assert IsQuote(q) && forall p :: p in quotes[1..] ==> p in quotes;
      if EndsWith(s, q) && |s| > |q| {
        var base := s[..|s| - |q|];
        assert s == base + q && base[0] == s[0] && forall c :: c in base ==> c in s;
        QuoteIsPlain(q);
        TailKeepsTidy(base, q);
        assert forall c :: c in "-" + q ==> c == '-' || c in q;
        TailKeepsTidy(base, "-" + q);
        assert base + ("-" + q) == base + "-" + q;
        WithSwap(base + "-" + q);
      } else {
        WithQuoteShape(s, quotes[1..]);
      }
    }
  }

  /** A symbol that is not blank normalises to a tidy name ending in -SWAP, with one slash fewer. */
  lemma NormalizedShape(symbol: string)
    requires Trim(symbol) != ""
    ensures
      var r := NormalizeSymbol(symbol);
      && IsTidy(r) && EndsWith(r, SWAP)
      && Slashes(r) == if Slashes(symbol) == 0 then 0 else Slashes(symbol) - 1
  {
    var t := Upper(Trim(symbol));
    var d := DashFirst(t);
    UpperTrimIsTidy(symbol);
    DashFirstKeepsTidy(t);
    SlashesMeaning(t);
    WithSwap(d);
    WithQuoteShape(d, QUOTES);
  }

  /** A tidy name ending in -SWAP loses only its first slash to the normaliser. */
  lemma TidySwapNormalizes(r: string)
    requires IsTidy(r) && EndsWith(r, SWAP)
    ensures NormalizeSymbol(r) == DashFirst(r)
  {
    assert r[|r| - 1] == r[|r| - |SWAP|..][|SWAP| - 1] == 'P';
    TrimPlain(r);
    UpperFixed(r);
    DashFirstKeepsSwap(r);
  }

  lemma {:induction false} DashFirstAt(s: string)
    ensures forall i :: 0 <= i < |s| && s[i] != '/' ==> DashFirst(s)[i] == s[i]
  {
    if s != "" && s[0] != '/' {
      DashFirstAt(s[1..]);
      assert forall i :: 1 <= i < |s| ==> s[i] == s[1..][i - 1] && DashFirst(s)[i] == DashFirst(s[1..])[i - 1];
    }
  }

  lemma DashFirstKeepsSwap(r: string)
    requires EndsWith(r, SWAP)
    ensures EndsWith(DashFirst(r), SWAP)
  {
    var n := |r| - |SWAP|;
    DashFirstAt(r);
    assert forall i :: 0 <= i < |SWAP| ==> r[n + i] == r[n..][i] == SWAP[i] != '/';
    assert DashFirst(r)[n..] == SWAP;
  }

  /** Normalising twice is normalising once if and only if the symbol is blank or has at most one slash. */
  lemma NormalizeIdempotentIff(symbol: string)
    ensures NormalizeSymbol(NormalizeSymbol(symbol)) == NormalizeSymbol(symbol)
            <==> Trim(symbol) == "" || Slashes(symbol) <= 1
  {
    if Trim(symbol) != "" {
      var r := NormalizeSymbol(symbol);
      NormalizedShape(symbol);
      TidySwapNormalizes(r);
      SlashesMeaning(r);
      if '/' !in r {
        NoSlashToDash(r);
      }
    }
  }

  /** With two slashes the second pass replaces the slash the first one left. */
  lemma TwoSlashesAreNotIdempotent()
    ensures NormalizeSymbol(NormalizeSymbol("A/B/C")) != NormalizeSymbol("A/B/C")
  {
    var s := "A/B/C";
    TrimPlain(s);
    assert s[1..] == "/B/C" && s[1..][1..] == "B/C" && s[1..][1..][1..] == "/C" && s[1..][1..][1..][1..] == "C";
    assert Slashes(s) == 2;
    NormalizeIdempotentIff(s);
  }

  // ---------- What the two forms are, by shape of the input ----------

  /** `s` spells `t` in any mixture of cases. */
  ghost predicate Spells(s: string, t: string) {
    |s| == |t| && forall i :: 0 <= i < |s| ==>
      s[i] == t[i] || ('A' <= t[i] <= 'Z' && s[i] as int == t[i] as int + 32)
  }

  ghost predicate IsBlank(s: string) { forall c :: c in s ==> c in [' ', '\t', '\n', '\r', '\U{0B}', '\U{0C}'] }

  /** No lower-case letter. */
  ghost predicate IsUpper(t: string) { forall c :: c in t ==> !('a' <= c <= 'z') }

  lemma UpperOfSpelling(s: string, t: string)
    requires Spells(s, t) && IsUpper(t)
    ensures Upper(s) == t
  {
    forall i | 0 <= i < |s| ensures UpperChar(s[i]) == t[i] {
      assert t[i] in t;
    }
  }

  lemma {:induction false} TrimLeftBlank(pre: string, s: string)
    requires IsBlank(pre) && s != "" && !IsSpace(s[0])
    ensures TrimLeft(pre + s) == s
  {
    if pre == "" {
      assert pre + s == s;
    } else {
      assert pre[0] in pre;
      TrimLeftBlank(pre[1..], s);
      assert (pre + s)[1..] == pre[1..] + s;
    }
  }

  lemma {:induction false} TrimRightBlank(s: string, post: string)
    requires IsBlank(post) && s != "" && !IsSpace(s[|s| - 1])
    ensures TrimRight(s + post) == s
  {
    if post == "" {
      assert s + post == s;
    } else {
      assert post[|post| - 1] in post;
      TrimRightBlank(s, post[..|post| - 1]);
      assert (s + post)[..|s + post| - 1] == s + post[..|post| - 1];
    }
  }

  /** Neither case nor blanks around a symbol matter to the profile form. */
  lemma SpellingIsNormalized(pre: string, s: string, post: string, t: string)
    requires IsBlank(pre) && IsBlank(post)
    requires Spells(s, t) && IsUpper(t) && t != "" && !IsSpace(t[0]) && !IsSpace(t[|t| - 1])
    ensures NormalizeSymbol(pre + s + post) == NormalizeSymbol(t)
  {
    assert pre + s + post == pre + (s + post);
    TrimLeftBlank(pre, s + post);
    TrimRightBlank(s, post);
    UpperOfSpelling(s, t);
    TrimPlain(t);
    assert Spells(t, t);
    UpperOfSpelling(t, t);
  }

  lemma {:induction false} DashFirstPair(a: string, b: string)
    requires '/' !in a
    ensures DashFirst(a + "/" + b) == a + "-" + b
  {
    if a == "" {
      assert a + "/" + b == "/" + b && ("/" + b)[1..] == b && a + "-" + b == "-" + b;
    } else {
      DashFirstPair(a[1..], b);
      assert (a + "/" + b)[1..] == a[1..] + "/" + b;
      assert a + "-" + b == [a[0]] + (a[1..] + "-" + b);
    }
  }

  lemma PairIsItself(base: string, sep: string, rest: string)
    requires IsPlain(base) && IsPlain(rest) && (sep == "-" || sep == "/")
    ensures var s := base + sep + rest; s != "" && Upper(Trim(s)) == s
  {
    var s := base + sep + rest;
    assert base[0] in base && rest[|rest| - 1] in rest;
    assert s[0] == base[0] && s[|s| - 1] == rest[|rest| - 1];
    TrimPlain(s);
    assert forall c :: c in s ==> c in base || c in sep || c in rest;
    UpperFixed(s);
  }

  /** A pair ends with -SWAP only if its second part is SWAP. */
  lemma PairEndsWithSwap(base: string, quote: string)
    requires '-' !in quote
    ensures EndsWith(base + "-" + quote, SWAP) ==> quote == "SWAP"
  {
    var pair := base + "-" + quote;
    EndsWithSwapAt(pair);
    assert pair[|base|] == '-' && pair[|base| + 1..] == quote;
    forall i | |base| < i < |pair| ensures pair[i] != '-' {
      assert pair[i] == quote[i - |base| - 1];
    }
  }

  lemma EndsWithSwapAt(s: string)
    ensures EndsWith(s, SWAP) ==>
              && |s| >= 5 && s[|s| - 5] == '-'
              && s[|s| - 4..] == "SWAP"
              && s[|s| - 4] == 'S' && s[|s| - 3] == 'W' && s[|s| - 2] == 'A' && s[|s| - 1] == 'P'
  {
    if EndsWith(s, SWAP) {
      var end := s[|s| - 5..];
      assert end[0] == '-' && end[1] == 'S' && end[2] == 'W' && end[3] == 'A' && end[4] == 'P' && end[1..] == "SWAP";
      assert s[|s| - 4..] == end[1..];
    }
  }

  lemma SuffixSplits(s: string, suffix: string)
    ensures EndsWith(s, suffix) ==> s == s[..|s| - |suffix|] + suffix
  {
  }

  lemma DashedIsNormalized(s: string, pair: string)
    requires s != "" && Upper(Trim(s)) == s && DashFirst(s) == pair
    requires '-' in pair && !EndsWith(pair, SWAP)
    ensures NormalizeSymbol(s) == pair + SWAP
  {
  }

  /** BASE/QUOTE, BASE-QUOTE and BASE-QUOTE-SWAP all have the profile form BASE-QUOTE-SWAP. */
  lemma PairIsNormalized(base: string, quote: string)
    requires IsPlain(base) && IsPlain(quote) && quote != "SWAP"
    ensures NormalizeSymbol(base + "/" + quote) == base + "-" + quote + "-SWAP"
    ensures NormalizeSymbol(base + "-" + quote) == base + "-" + quote + "-SWAP"
    ensures NormalizeSymbol(base + "-" + quote + "-SWAP") == base + "-" + quote + "-SWAP"
  {
    var pair := base + "-" + quote;
    PairEndsWithSwap(base, quote);
    assert pair[|base|] == '-';
    assert NormalizeSymbol(base + "/" + quote) == pair + SWAP by {
      PairIsItself(base, "/", quote);
      DashFirstPair(base, quote);
      DashedIsNormalized(base + "/" + quote, pair);
    }
    assert NormalizeSymbol(pair) == pair + SWAP by {
      PairIsItself(base, "-", quote);
      NoSlashToDash(pair);
      DashedIsNormalized(pair, pair);
    }
    SwapIsNormalized(base, quote);
  }

  lemma SwapIsNormalized(base: string, quote: string)
    requires IsPlain(base) && IsPlain(quote)
    ensures NormalizeSymbol(base + "-" + quote + SWAP) == base + "-" + quote + SWAP
  {
    var pair := base + "-" + quote;
    var s := pair + SWAP;
    assert forall c :: c in pair ==> c in base || c == '-' || c in quote;
    assert base[0] in base && s[0] == base[0] && s[|s| - 1] == SWAP[4];
    SwapTailIsItself(pair);
    SuffixOfConcat(pair, SWAP);
  }

  lemma SwapTailIsItself(s: string)
    requires s != "" && !IsSpace(s[0]) && forall c :: c in s ==> UpperChar(c) == c && c != '/'
    ensures var r := s + SWAP; Upper(Trim(r)) == r && DashFirst(r) == r
  {
    var r := s + SWAP;
    assert r[0] == s[0] && r[|r| - 1] == SWAP[4] == 'P';
    assert forall c :: c in r ==> c in s || c in SWAP;
    assert forall c :: c in SWAP ==> UpperChar(c) == c && c != '/';
    TrimPlain(r);
    UpperFixed(r);
    NoSlashToDash(r);
  }

  /** A plain name with no listed quote behind a base gets the suffix only. */
  lemma {:induction false} NoQuoteFound(s: string, quotes: seq<string>)
    requires forall q :: q in quotes ==> !(EndsWith(s, q) && |s| > |q|)
    ensures WithQuote(s, quotes) == s + SWAP
  {
    if quotes != [] {
      assert quotes[0] in quotes && forall q :: q in quotes[1..] ==> q in quotes;
      NoQuoteFound(s, quotes[1..]);
    }
  }

  lemma OtherNameIsNormalized(s: string)
    requires IsPlain(s)
    requires forall base, quote :: s == base + quote && base != "" ==> quote !in ["USDT", "USDC", "USD"]
    ensures NormalizeSymbol(s) == s + "-SWAP"
  {
    PlainIsItself(s);
    forall q | q in QUOTES ensures !(EndsWith(s, q) && |s| > |q|) {
      assert q in ["USDT", "USDC", "USD"];
      SuffixSplits(s, q);
    }
    NoQuoteFound(s, QUOTES);
  }

  lemma {:induction false} ColonCuts(t: string, rest: string)
    requires ':' !in t
    ensures BeforeColon(t + ":" + rest) == t
  {
    if t == "" {
      assert t + ":" + rest == ":" + rest;
    } else {
      ColonCuts(t[1..], rest);
      assert (t + ":" + rest)[1..] == t[1..] + ":" + rest;
    }
  }

  /** Neither case nor what follows a colon matters to the exchange form. */
  lemma SpellingForExchange(exchange: string, s: string, rest: string, t: string)
    requires Spells(s, t) && IsUpper(t) && t != "" && ':' !in t
    ensures ForExchange(exchange, s) == ForExchange(exchange, t)
    ensures ForExchange(exchange, s + ":" + rest) == ForExchange(exchange, t)
  {
    UpperOfSpelling(s, t);
    assert Spells(t, t);
    UpperOfSpelling(t, t);
    assert Upper(s + ":" + rest) == t + ":" + Upper(rest);
    ColonCuts(t, Upper(rest));
    NoColonToCut(t);
  }

  lemma {:induction false} DashAllAt(s: string)
    ensures |DashAll(s)| == |s|
    ensures forall i :: 0 <= i < |s| ==> DashAll(s)[i] == if s[i] == '/' then '-' else s[i]
  {
    if s != "" {
      DashAllAt(s[1..]);
      assert forall i :: 1 <= i < |s| ==> s[i] == s[1..][i - 1] && DashAll(s)[i] == DashAll(s[1..])[i - 1];
    }
  }

  /** Upper-case, with neither colon nor slash: cleaning leaves it alone. */
  ghost predicate IsClean(s: string) { forall c :: c in s ==> UpperChar(c) == c && c != ':' && c != '/' }

  lemma PairChars(base: string, sep: string, tail: string)
    requires IsPlain(base) && IsClean(tail) && (sep == "-" || sep == "/")
    ensures forall c :: c in base + sep + tail ==> UpperChar(c) == c && c != ':'
  {
    forall c | c in base + sep + tail ensures UpperChar(c) == c && c != ':' {
      assert c in base || c in sep || c in tail;
    }
  }

  lemma DashAllPair(base: string, sep: string, tail: string)
    requires '/' !in base && '/' !in tail && (sep == "-" || sep == "/")
    ensures DashAll(base + sep + tail) == base + "-" + tail
  {
    var s := base + sep + tail;
    DashAllAt(s);
    assert forall i :: 0 <= i < |base| ==> s[i] == base[i] && base[i] in base;
    assert forall i :: |base| < i < |s| ==> s[i] == tail[i - |base| - 1] && tail[i - |base| - 1] in tail;
  }

  lemma CleanedPair(base: string, sep: string, tail: string)
    requires IsPlain(base) && IsClean(tail) && (sep == "-" || sep == "/")
    ensures DashAll(BeforeColon(Upper(base + sep + tail))) == base + "-" + tail
  {
    PairChars(base, sep, tail);
    UpperFixed(base + sep + tail);
    NoColonToCut(base + sep + tail);
    DashAllPair(base, sep, tail);
  }

  lemma OkxPair(base: string, sep: string, quote: string)
    requires IsPlain(base) && IsPlain(quote) && quote != "SWAP" && (sep == "-" || sep == "/")
    ensures ForExchange("okx", base + sep + quote) == base + "-" + quote + SWAP
  {
    CleanedPair(base, sep, quote);
    PairEndsWithSwap(base, quote);
    assert (base + "-" + quote)[|base|] == '-';
  }

  lemma OkxSwap(base: string, quote: string)
    requires IsPlain(base) && IsPlain(quote)
    ensures ForExchange("okx", base + "-" + quote + SWAP) == base + "-" + quote + SWAP
  {
    var tail := quote + SWAP;
    assert IsClean(SWAP) && forall c :: c in tail ==> c in quote || c in SWAP;
    CleanedPair(base, "-", tail);
    assert base + "-" + tail == base + "-" + quote + SWAP;
    SuffixOfConcat(base + "-" + quote, SWAP);
  }

  /** On okx a pair gets the suffix -SWAP, unless it has it, and a name without a dash gets nothing. */
  lemma OkxForm(base: string, sep: string, quote: string)
    requires IsPlain(base) && IsPlain(quote) && quote != "SWAP" && (sep == "-" || sep == "/")
    ensures ForExchange("okx", base + sep + quote) == base + "-" + quote + "-SWAP"
    ensures ForExchange("okx", base + "-" + quote + "-SWAP") == base + "-" + quote + "-SWAP"
    ensures ForExchange("okx", base) == base
  {
    OkxPair(base, sep, quote);
    OkxSwap(base, quote);
    CleanedPlain(base);
    NoDashNoEnd(base, SWAP);
  }

  lemma ContractIsDropped(pair: string, contract: string)
    requires contract in CONTRACTS
    ensures WithoutContract(pair + contract, CONTRACTS) == pair
    ensures !EndsWith(pair + contract, SWAP)
  {
    var s := pair + contract;
    SuffixOfConcat(pair, contract);
    assert s[|s| - 1] == contract[|contract| - 1] && s[|s| - 4] == contract[|contract| - 4];
    EndsWithSwapAt(s);
    assert contract == "-PERP" || contract == "-PERPETUAL" || contract == "-FUTURES";
    assert CONTRACTS[1..] == ["-PERPETUAL", "-FUTURES"] && CONTRACTS[1..][1..] == ["-FUTURES"];
    if contract != "-PERP" {
      LastDiffers(s, "-PERP");
      assert WithoutContract(s, CONTRACTS) == WithoutContract(s, ["-PERPETUAL", "-FUTURES"]);
      if contract != "-PERPETUAL" {
        LastDiffers(s, "-PERPETUAL");
        assert WithoutContract(s, ["-PERPETUAL", "-FUTURES"]) == WithoutContract(s, ["-FUTURES"]);
      }
    }
  }

  /** What is left of a cleaned pair once -SWAP and then a contract suffix are dropped. */
  lemma PairIsBare(base: string, quote: string, contract: string)
    requires IsQuote(quote) && (contract == "" || contract in CONTRACTS)
    ensures var pair := base + "-" + quote;
            && WithoutContract(Without(pair + contract, SWAP), CONTRACTS) == pair
            && WithoutContract(Without(pair + contract + SWAP, SWAP), CONTRACTS) == pair
  {
    var pair := base + "-" + quote;
    SuffixOfConcat(pair + contract, SWAP);
    if contract == "" {
      assert pair + contract == pair && pair[|pair| - 1] == quote[|quote| - 1];
      LastDiffers(pair, SWAP);
      PairHasNoContract(base, quote);
    } else {
      ContractIsDropped(pair, contract);
    }
  }

  lemma OtherForm(exchange: string, s: string, cleaned: string, base: string, quote: string)
    requires exchange != "okx" && s != "" && '-' !in base && '-' !in quote
    requires DashAll(BeforeColon(Upper(s))) == cleaned
    requires WithoutContract(Without(cleaned, SWAP), CONTRACTS) == base + "-" + quote
    ensures ForExchange(exchange, s) == base + quote
  {
    PairWithoutDashes(base, quote);
  }

  /** On every other exchange a pair loses its separator, its contract suffix and -SWAP. */
  lemma OtherExchangeForm(exchange: string, base: string, sep: string, quote: string, contract: string)
    requires exchange != "okx" && IsPlain(base) && IsQuote(quote) && (sep == "-" || sep == "/")
    requires contract in ["", "-PERP", "-PERPETUAL", "-FUTURES"]
    ensures ForExchange(exchange, base + sep + quote + contract) == base + quote
    ensures ForExchange(exchange, base + sep + quote + contract + "-SWAP") == base + quote
  {
    QuoteIsPlain(quote);
    PairIsBare(base, quote, contract);
    TailIsClean(quote, contract);
    TailForm(exchange, base, sep, quote, contract, base + sep + quote + contract);
    Associates(base, sep, quote, contract);
    TailForm(exchange, base, sep, quote, contract + SWAP, base + sep + quote + contract + SWAP);
  }

  lemma Associates(base: string, sep: string, quote: string, contract: string)
    ensures quote + (contract + SWAP) == quote + contract + SWAP
    ensures base + "-" + quote + (contract + SWAP) == base + "-" + quote + contract + SWAP
    ensures base + sep + quote + (contract + SWAP) == base + sep + quote + contract + SWAP
  {
  }

  lemma TailForm(exchange: string, base: string, sep: string, quote: string, end: string, s: string)
    requires exchange != "okx" && IsPlain(base) && IsPlain(quote) && (sep == "-" || sep == "/")
    requires IsClean(quote + end) && s == base + sep + quote + end
    requires WithoutContract(Without(base + "-" + quote + end, SWAP), CONTRACTS) == base + "-" + quote
    ensures ForExchange(exchange, s) == base + quote
  {
    CleanedPair(base, sep, quote + end);
    assert base + sep + (quote + end) == s;
    assert base + "-" + (quote + end) == base + "-" + quote + end;
    OtherForm(exchange, s, base + "-" + quote + end, base, quote);
  }

  lemma TailIsClean(quote: string, contract: string)
    requires IsQuote(quote) && contract in ["", "-PERP", "-PERPETUAL", "-FUTURES"]
    ensures IsClean(quote + contract) && IsClean(quote + contract + SWAP)
  {
    assert IsClean(quote) && IsClean(contract) && IsClean(SWAP);
    assert forall c :: c in quote + contract ==> c in quote || c in contract;
    assert forall c :: c in quote + contract + SWAP ==> c in quote + contract || c in SWAP;
  }
}
