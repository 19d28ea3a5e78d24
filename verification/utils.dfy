/**
  The helpers of lib/utils.ts: the e-mail check, the percentage and discount
  roundings, and the currency-symbol choice of `formatCurrency`.
 */
module Utils {
  import opened JsMath
  import opened Tables
  import CurrencyConverter

  // ---------------------------------------------------------------------
  // validateEmail: /^[^\s@]+@[^\s@]+\.[^\s@]+$/
  // ---------------------------------------------------------------------

  /** The characters JavaScript's `\s` class matches. */
  predicate IsWhitespace(c: char)
  {
    c == '\t' || c == '\n' || c == '\U{000B}' || c == '\U{000C}' || c == '\r' || c == ' ' ||
    c == '\U{00A0}' || c == '\U{1680}' || ('\U{2000}' <= c <= '\U{200A}') ||
    c == '\U{2028}' || c == '\U{2029}' || c == '\U{202F}' || c == '\U{205F}' ||
    c == '\U{3000}' || c == '\U{FEFF}'
  }

  /** A character of the class `[^\s@]`. */
  predicate Plain(c: char)
  {
    !IsWhitespace(c) && c != '@'
  }

  predicate AllPlain(s: string)
  {
    forall i :: 0 <= i < |s| ==> Plain(s[i])
  }

  /** `[^\s@]+\.[^\s@]+` on the part after the '@': no whitespace and no
      '@', and a '.' that is neither the first nor the last character. */
  predicate WellFormedDomain(domain: string)
  {
    AllPlain(domain) && exists k :: 0 < k < |domain| - 1 && domain[k] == '.'
  }

  /** `s` splits at `at` into a local part without whitespace or '@', the
      '@' itself, and a well-formed domain. */
  predicate SplitAt(s: string, at: int)
  {
    0 <= at < |s| && s[at] == '@' && AllPlain(s[..at]) && WellFormedDomain(s[at + 1..])
  }

  /** The whole pattern, stated on the position of the '@': a non-empty
      local part, then the '@', then a well-formed domain. */
  ghost predicate WellFormedEmail(s: string)
  {
    exists at :: 0 < at && SplitAt(s, at)
  }

  /** The states of an automaton for the pattern: what has been read so far. */
  datatype EmailState =
    | Start      // nothing
    | Local      // one or more local-part characters
    | AtSign     // the local part and the '@'
    | Domain     // one or more domain characters, no usable '.' yet
    | Dot        // a '.' that has a domain character before it
    | Tail       // at least one character after such a '.': accepting
    | Reject

  function Step(q: EmailState, c: char): (next: EmailState)
  {
    if IsWhitespace(c) then Reject
    else match q
      case Start => if c == '@' then Reject else Local
      case Local => if c == '@' then AtSign else Local
      case AtSign => if c == '@' then Reject else Domain
      case Domain => if c == '@' then Reject else if c == '.' then Dot else Domain
      case Dot => if c == '@' then Reject else Tail
      case Tail => if c == '@' then Reject else Tail
      case Reject => Reject
  }

  /** The automaton, started in `q`, accepts the rest of the input `s`. */
  predicate Accepts(q: EmailState, s: string)
    decreases |s|
  {
    if s == [] then q == Tail else Accepts(Step(q, s[0]), s[1..])
  }

  /** `validateEmail(email)`: the regular expression run to the end of the
      string. The contract is the pattern stated structurally. */
  predicate ValidateEmail(email: string)
    ensures ValidateEmail(email) <==> WellFormedEmail(email)
  {
    AcceptsStart(email);
    Accepts(Start, email)
  }

  lemma {:induction false} AcceptsReject(s: string)
    ensures !Accepts(Reject, s)
  {
    if s != [] {
      AcceptsReject(s[1..]);
    }
  }

  lemma {:induction false} AcceptsTail(s: string)
    ensures Accepts(Tail, s) <==> AllPlain(s)
  {
    if s != [] {
      AcceptsTail(s[1..]);
      AcceptsReject(s[1..]);
      assert forall i :: 1 <= i < |s| ==> s[i] == s[1..][i - 1];
    }
  }

  lemma {:induction false} AcceptsDot(s: string)
    ensures Accepts(Dot, s) <==> |s| > 0 && AllPlain(s)
  {
    if s != [] {
      AcceptsTail(s[1..]);
      AcceptsReject(s[1..]);
      assert forall i :: 1 <= i < |s| ==> s[i] == s[1..][i - 1];
    }
  }

  lemma {:induction false} AcceptsDomain(s: string)
    ensures Accepts(Domain, s) <==> AllPlain(s) && exists k :: 0 <= k < |s| - 1 && s[k] == '.'
  {
    if s != [] {
      var t := s[1..];
      assert forall i :: 1 <= i < |s| ==> s[i] == t[i - 1];
      AcceptsReject(t);
      AcceptsDot(t);
      AcceptsDomain(t);
      if Plain(s[0]) && s[0] != '.' && AllPlain(s) && (exists k :: 0 <= k < |s| - 1 && s[k] == '.') {
        var k :| 0 <= k < |s| - 1 && s[k] == '.';
        assert 0 <= k - 1 < |t| - 1 && t[k - 1] == '.';
      }
      if Plain(s[0]) && s[0] != '.' && AllPlain(t) && (exists k :: 0 <= k < |t| - 1 && t[k] == '.') {
        var k :| 0 <= k < |t| - 1 && t[k] == '.';
        assert s[k + 1] == '.';
      }
    }
  }

  lemma AcceptsAtSign(s: string)
    ensures Accepts(AtSign, s) <==> WellFormedDomain(s)
  {
    if s != [] {
      var t := s[1..];
      assert forall i :: 1 <= i < |s| ==> s[i] == t[i - 1];
      AcceptsReject(t);
      AcceptsDomain(t);
      if AllPlain(s) && (exists k :: 0 < k < |s| - 1 && s[k] == '.') {
        var k :| 0 < k < |s| - 1 && s[k] == '.';
        assert t[k - 1] == '.';
      }
      if Plain(s[0]) && AllPlain(t) && (exists k :: 0 <= k < |t| - 1 && t[k] == '.') {
        var k :| 0 <= k < |t| - 1 && t[k] == '.';
        assert s[k + 1] == '.';
      }
    }
  }

  /** Moving the split point past a first character that is plain. */
  lemma SplitAtShift(s: string, at: int)
    requires |s| > 0 && at > 0
    ensures SplitAt(s, at) <==> Plain(s[0]) && SplitAt(s[1..], at - 1)
  {
    if 0 < at < |s| {
      assert s[..at] == [s[0]] + s[1..][..at - 1];
      assert s[at + 1..] == s[1..][at..];
      assert forall i :: 1 <= i < at ==> s[..at][i] == s[1..][..at - 1][i - 1];
      assert s[1..][at - 1] == s[at];
      AllPlainCons(s[0], s[1..][..at - 1]);
    }
  }

  /** A string is plain exactly when its first character and the rest are. */
  lemma AllPlainCons(c: char, t: string)
    ensures AllPlain([c] + t) <==> Plain(c) && AllPlain(t)
  {
    var u := [c] + t;
    assert u[0] == c;
    assert forall i :: 0 <= i < |t| ==> u[i + 1] == t[i];
    if Plain(c) && AllPlain(t) {
      forall i | 0 <= i < |u| ensures Plain(u[i]) {
        if i > 0 {
          assert u[i] == t[i - 1];
        }
      }
    }
  }

  lemma SplitAtZero(s: string)
    requires |s| > 0
    ensures SplitAt(s, 0) <==> s[0] == '@' && WellFormedDomain(s[1..])
  {
    assert s[..0] == [];
  }

  /** After a non-empty local part, the rest is accepted exactly when it is
      more local part, then '@', then a well-formed domain. */
  lemma {:induction false} AcceptsLocal(s: string)
    ensures Accepts(Local, s) <==> exists at :: SplitAt(s, at)
  {
    if s != [] {
      var t := s[1..];
      AcceptsReject(t);
      SplitAtZero(s);
      if s[0] == '@' {
        AcceptsAtSign(t);
        if exists at :: SplitAt(s, at) {
          var at :| SplitAt(s, at);
          if at > 0 {
            SplitAtShift(s, at);
          }
        }
      } else if IsWhitespace(s[0]) {
        if exists at :: SplitAt(s, at) {
          var at :| SplitAt(s, at);
          SplitAtShift(s, at);
        }
      } else {
        AcceptsLocal(t);
        if exists at :: SplitAt(t, at) {
          var at :| SplitAt(t, at);
          SplitAtShift(s, at + 1);
        }
        if exists at :: SplitAt(s, at) {
          var at :| SplitAt(s, at);
          SplitAtShift(s, at);
        }
      }
    }
  }

  lemma AcceptsStart(s: string)
    ensures Accepts(Start, s) <==> WellFormedEmail(s)
  {
    if s != [] {
      var t := s[1..];
      AcceptsReject(t);
      AcceptsLocal(t);
      if exists at :: SplitAt(t, at) {
        var at :| SplitAt(t, at);
        SplitAtShift(s, at + 1);
      }
      if WellFormedEmail(s) {
        var at :| 0 < at && SplitAt(s, at);
        SplitAtShift(s, at);
      }
    }
  }

  /** The pattern on an address split at its '@': the check holds exactly
      when the local part is non-empty and plain and the domain is
      well-formed. */
  lemma ValidateEmailSplit(local: string, domain: string)
    ensures ValidateEmail(local + "@" + domain) <==>
              |local| > 0 && AllPlain(local) && WellFormedDomain(domain)
  {
    var s := local + "@" + domain;
    assert s[|local|] == '@' && s[..|local|] == local && s[|local| + 1..] == domain;
    assert 0 < |local| ==> SplitAt(s, |local|) == (AllPlain(local) && WellFormedDomain(domain));
  }

  /** Whitespace anywhere, no '@' at all, or two '@'s: rejected. */
  lemma ValidateEmailRejects(s: string)
    requires (exists i :: 0 <= i < |s| && IsWhitespace(s[i]))
          || (forall i :: 0 <= i < |s| ==> s[i] != '@')
          || (exists i, j :: 0 <= i < j < |s| && s[i] == '@' && s[j] == '@')
    ensures !ValidateEmail(s)
  {
    if WellFormedEmail(s) {
      var at :| 0 < at && SplitAt(s, at);
      var d := s[at + 1..];
      assert forall i :: 0 <= i < |s| ==> Plain(s[i]) || i == at by {
        forall i | 0 <= i < |s| && i != at ensures Plain(s[i]) {
          if i < at {
            assert s[..at][i] == s[i];
          } else {
            assert d[i - at - 1] == s[i];
          }
        }
      }
    }
  }

  // ---------------------------------------------------------------------
  // calculatePercentage, applyDiscount
  // ---------------------------------------------------------------------

  /** `calculatePercentage(value, percentage)`: `percentage` per cent of
      `value`, rounded to the nearest integer (halves upward). */
  function CalculatePercentage(value: real, percentage: real): (r: int)
    ensures r as real - 0.5 <= value * (percentage / 100.0) < r as real + 0.5
  {
    Round(value * (percentage / 100.0))
  }

  /** `applyDiscount(value, discountPercentage)`: what remains of `value`
      after the discount, rounded to the nearest integer (halves upward). */
  function ApplyDiscount(value: real, discountPercentage: real): (r: int)
    ensures r as real - 0.5 <= value * (1.0 - discountPercentage / 100.0) < r as real + 0.5
  {
    Round(value * (1.0 - discountPercentage / 100.0))
  }

  /** All of a value is the rounded value, none of it is 0; no discount
      leaves the rounded value, a full discount leaves 0. */
  lemma PercentageAndDiscountEdges(value: real)
    ensures CalculatePercentage(value, 100.0) == Round(value)
    ensures CalculatePercentage(value, 0.0) == 0
    ensures ApplyDiscount(value, 0.0) == Round(value)
    ensures ApplyDiscount(value, 100.0) == 0
  {
  }

  /** A discount of `d` per cent keeps `100 - d` per cent of the value. */
  lemma DiscountIsComplementaryPercentage(value: real, discountPercentage: real)
    ensures ApplyDiscount(value, discountPercentage) == CalculatePercentage(value, 100.0 - discountPercentage)
  {
    assert value * (1.0 - discountPercentage / 100.0) == value * ((100.0 - discountPercentage) / 100.0);
  }

  // ---------------------------------------------------------------------
  // formatCurrency
  // ---------------------------------------------------------------------

  /** The fixed symbol table of `formatCurrency`. */
  const CurrencySymbols: map<string, string> := map[
    "AED" := "\U{062F}.\U{0625}",
    "USD" := "$",
    "EUR" := "\U{20AC}",
    "GBP" := "\U{00A3}",
    "PKR" := "\U{20A8}"
  ]

  /** `currencySymbols[currency] || currency`: the table's symbol for the
      five known codes, the code itself for any other. */
  function CurrencySymbol(currency: string): (symbol: string)
    ensures currency in CurrencySymbols ==> symbol == CurrencySymbols[currency]
    ensures currency !in CurrencySymbols ==> symbol == currency
  {
    if currency in CurrencySymbols && CurrencySymbols[currency] != [] then CurrencySymbols[currency]
    else currency
  }

  /** `formatCurrency`: the symbol followed by the amount's text. The text
      (`toLocaleString` with no fraction digits) is library formatting and is
      taken as given. */
  function FormatCurrency(formattedAmount: string, currency: string): (text: string)
    ensures |text| >= |formattedAmount|
    ensures text[..|text| - |formattedAmount|] == CurrencySymbol(currency)
    ensures text[|text| - |formattedAmount|..] == formattedAmount
  {
    CurrencySymbol(currency) + formattedAmount
  }

  /** The symbol `formatCurrency` prints and the one the currency hook looks
      up in its fallback currency list agree for every code. */
  lemma SymbolSourcesAgree(code: string)
    ensures CurrencySymbol(code) == CurrencyConverter.GetCurrencySymbol(CurrencyConverter.FallbackCurrencies, code)
  {
    var cs := CurrencyConverter.FallbackCurrencies;
    assert CurrencySymbols.Keys == {"AED", "USD", "EUR", "GBP", "PKR"};
    if i :| 0 <= i < |cs| && cs[i].code == code {
      SymbolOfListedCode(i);
    } else {
      assert code !in CurrencySymbols by {
        assert forall k :: k in CurrencySymbols ==> exists i :: 0 <= i < |cs| && cs[i].code == k by {
          forall k | k in CurrencySymbols ensures exists i :: 0 <= i < |cs| && cs[i].code == k {
            assert k == cs[0].code || k == cs[1].code || k == cs[2].code || k == cs[3].code || k == cs[4].code;
          }
        }
      }
    }
  }

  lemma SymbolOfListedCode(i: int)
    requires 0 <= i < |CurrencyConverter.FallbackCurrencies|
    ensures var c := CurrencyConverter.FallbackCurrencies[i];
      CurrencySymbol(c.code) == CurrencyConverter.GetCurrencySymbol(CurrencyConverter.FallbackCurrencies, c.code)
  {
    var cs := CurrencyConverter.FallbackCurrencies;
    assert FirstMatch(cs, CurrencyCode, cs[i].code, i);
    assert CurrencySymbols[cs[i].code] == cs[i].symbol;
  }
}
