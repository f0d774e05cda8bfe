/** Escaping of single quotes for Android string resources: first turn
    every `\'` back into `'`, then every `'` into `\'`. Un-escaping first is
    what keeps repeated escaping from piling up backslashes. */
module Escaping {
  import opened Strings

  /** `\'`, the escaped form of a single quote. */
  const EscapedQuote: string := ['\\', '\'']
  const Quote: string := ['\'']

  /** The first pass: every `\'` becomes `'`. */
  function Unescape(s: string): string
  {
    Replace(s, EscapedQuote, Quote)
  }

  /** The second pass: every `'` becomes `\'`. */
  function QuoteAll(s: string): string
  {
    Replace(s, Quote, EscapedQuote)
  }

  /** `Escape.escape`. */
  function Escape(s: string): string
  {
    QuoteAll(Unescape(s))
  }

  /** A quoted string never starts with a bare quote. */
  lemma QuoteAllHead(s: string)
    ensures |QuoteAll(s)| > 0 ==> QuoteAll(s)[0] != '\''
  {
  }

  /** Un-escaping exactly undoes quoting. */
  lemma {:induction false} UnescapeQuoteAll(s: string)
    ensures Unescape(QuoteAll(s)) == s
    decreases |s|
  {
    if |s| > 0 {
      var rest := QuoteAll(s[1..]);
      UnescapeQuoteAll(s[1..]);
      QuoteAllHead(s[1..]);
      if s[0] == '\'' {
        assert QuoteAll(s) == EscapedQuote + rest;
        assert (EscapedQuote + rest)[..2] == EscapedQuote;
        assert (EscapedQuote + rest)[2..] == rest;
      } else {
        assert QuoteAll(s) == [s[0]] + rest;
        if |rest| > 0 {
          assert ([s[0]] + rest)[..2] != EscapedQuote by {
            assert ([s[0]] + rest)[..2][0] == s[0];
            assert ([s[0]] + rest)[..2][1] == rest[0];
          }
        }
        assert ([s[0]] + rest)[1..] == rest;
      }
      assert s == [s[0]] + s[1..];
    }
  }

  /** Escaping is idempotent: an escaped string comes back unchanged. */
  lemma EscapeIdempotent(s: string)
    ensures Escape(Escape(s)) == Escape(s)
  {
    UnescapeQuoteAll(Unescape(s));
  }

  /** Escaping is undone by the un-escaping pass, up to the escapes the
      input already had. */
  lemma EscapeRoundTrip(s: string)
    ensures Unescape(Escape(s)) == Unescape(s)
    ensures Unescape(s) == s ==> Unescape(Escape(s)) == s
  {
    UnescapeQuoteAll(Unescape(s));
  }

  /** In a quoted string every quote sits right after a backslash. */
  lemma {:induction false} QuoteAllEscapes(s: string)
    ensures forall i :: 0 <= i < |QuoteAll(s)| && QuoteAll(s)[i] == '\'' ==> 0 < i && QuoteAll(s)[i - 1] == '\\'
    decreases |s|
  {
    if |s| > 0 {
      var rest := QuoteAll(s[1..]);
      QuoteAllEscapes(s[1..]);
      QuoteAllHead(s[1..]);
      if s[0] == '\'' {
        assert QuoteAll(s) == EscapedQuote + rest;
        assert forall i :: 2 <= i < |QuoteAll(s)| ==> QuoteAll(s)[i] == rest[i - 2];
      } else {
        assert QuoteAll(s) == [s[0]] + rest;
        assert forall i :: 1 <= i < |QuoteAll(s)| ==> QuoteAll(s)[i] == rest[i - 1];
      }
    }
  }

  /** Every single quote in an escaped string is preceded by a backslash. */
  lemma EscapedQuotes(s: string)
    ensures forall i :: 0 <= i < |Escape(s)| && Escape(s)[i] == '\'' ==> 0 < i && Escape(s)[i - 1] == '\\'
  {
    QuoteAllEscapes(Unescape(s));
  }

  /** A string without single quotes is left as it is. */
  lemma EscapeWithoutQuotes(s: string)
    requires '\'' !in s
    ensures Escape(s) == s
  {
    ReplaceAbsent(s, EscapedQuote, Quote);
    ReplaceAbsent(s, Quote, EscapedQuote);
  }

  /** Neither pass turns a non-empty string into an empty one, so the
      escaped text is empty exactly when the text is. */
  lemma EscapeEmpty(s: string)
    ensures |Escape(s)| == 0 <==> |s| == 0
  {
  }
}
