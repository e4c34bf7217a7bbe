/** Single-quote escaping of file names before they are spliced into an SQL
    text literal (the `replace("'", "''")` of the files insert), and how the
    SQL engine reads such a literal back. */
module Quote {

  const Apostrophe: char := '\''

  /** Number of single quotes in `s`. */
  function CountQuotes(s: string): nat {
    if s == [] then 0
    else (if s[0] == Apostrophe then 1 else 0) + CountQuotes(s[1..])
  }

  /** Every single quote doubled; all other characters kept in order. */
  function Escape(s: string): (r: string)
    ensures |r| == |s| + CountQuotes(s)
    ensures CountQuotes(r) == 2 * CountQuotes(s)
  {
    if s == [] then []
    else if s[0] == Apostrophe then [Apostrophe, Apostrophe] + Escape(s[1..])
    else [s[0]] + Escape(s[1..])
  }

  /** The value the SQL engine reads from the body of a text literal: each
      doubled quote stands for one quote. (A lone quote would end the literal;
      such bodies are never produced by `Escape`.) */
  function Unescape(s: string): (r: string)
    ensures |r| <= |s|
  {
    if s == [] then []
    else if |s| >= 2 && s[0] == Apostrophe && s[1] == Apostrophe then [Apostrophe] + Unescape(s[2..])
    else [s[0]] + Unescape(s[1..])
  }

  /** Every single quote of `s` is the first half of a doubled pair, reading
      from the left: the body of a well-formed SQL text literal. */
  predicate QuotesPaired(s: string) {
    if s == [] then true
    else if s[0] == Apostrophe then |s| >= 2 && s[1] == Apostrophe && QuotesPaired(s[2..])
    else QuotesPaired(s[1..])
  }

  /** After escaping, every quote belongs to a doubled pair. */
  lemma {:induction false} EscapePaired(s: string)
    ensures QuotesPaired(Escape(s))
  {
    if s != [] {
      EscapePaired(s[1..]);
      var r := Escape(s);
      if s[0] == Apostrophe {
        assert r[2..] == Escape(s[1..]);
      } else {
        assert r[1..] == Escape(s[1..]);
      }
    }
  }

  /** Collapsing doubled quotes recovers the original name. */
  lemma {:induction false} UnescapeEscape(s: string)
    ensures Unescape(Escape(s)) == s
  {
    if s != [] {
      UnescapeEscape(s[1..]);
      var r := Escape(s);
      if s[0] == Apostrophe {
        assert r[2..] == Escape(s[1..]);
      } else {
        assert r[1..] == Escape(s[1..]);
      }
    }
  }

  /** Conversely, every well-formed literal body is the escape of exactly one
      name, so escaping is a bijection onto the paired strings. */
  lemma {:induction false} EscapeUnescape(r: string)
    requires QuotesPaired(r)
    ensures Escape(Unescape(r)) == r
  {
    if r != [] {
      if r[0] == Apostrophe {
        EscapeUnescape(r[2..]);
        assert Unescape(r) == [Apostrophe] + Unescape(r[2..]);
        assert r == [Apostrophe, Apostrophe] + r[2..];
      } else {
        EscapeUnescape(r[1..]);
        assert Unescape(r) == [r[0]] + Unescape(r[1..]);
        assert r == [r[0]] + r[1..];
      }
    }
  }
}
