/** The address-bar heuristic of `Browser.navigate_to_url`: typed text
    without a '.' is a search query, text with a '.' but without "http" is a
    host name that gets a scheme, anything else is used as typed.
 */
module Address {
  import opened Text

  /** The search engine a dot-less query is sent to; the query is appended unescaped. */
  const SearchPrefix: string := "https://duckduckgo.com/?q="

  /** The scheme put in front of a dotted input that lacks "http". */
  const SchemePrefix: string := "https://"

  /** The address `navigate_to_url` loads for typed text. Every result looks
      like a URL to the heuristic itself (it has a '.' and contains "http"),
      and the typed text is kept verbatim at its end: the heuristic only ever
      prepends. */
  function Resolve(text: string): (url: string)
    ensures '.' in url && Contains(url, "http")
    ensures EndsWith(url, text)
  {
    if '.' !in text then
      assert SearchPrefix[18] == '.';
      assert "http" <= SearchPrefix + text;
      assert (SearchPrefix + text)[|SearchPrefix|..] == text;
      SearchPrefix + text
    else if !Contains(text, "http") then
      assert "http" <= SchemePrefix + text;
      assert (SchemePrefix + text)[|SchemePrefix|..] == text;
      SchemePrefix + text
    else
      text
  }

  /** The heuristic adds no line break: a one-line input gives a one-line address. */
  lemma SingleLine(text: string)
    requires '\n' !in text
    ensures '\n' !in Resolve(text)
  {
    assert '\n' !in SearchPrefix && '\n' !in SchemePrefix;
  }

  /** The three cases of the heuristic, stated with the reference meaning of
      Python's substring test: each input shape maps to exactly one result. */
  lemma ResolveCases(text: string)
    ensures '.' !in text ==> Resolve(text) == SearchPrefix + text
    ensures '.' in text && !Occurs("http", text) ==> Resolve(text) == SchemePrefix + text
    ensures '.' in text && Occurs("http", text) ==> Resolve(text) == text
  {
    ContainsMeansOccurs(text, "http");
  }

  /** "http" anywhere counts, not only as a scheme: `myhttp.com` is loaded as typed. */
  lemma HttpAnywhere()
    ensures Resolve("myhttp.com") == "myhttp.com"
  {
    assert "http" <= "myhttp.com"[2..];
    assert Contains("myhttp.com"[2..], "http");
    assert Contains("myhttp.com"[1..], "http");
    assert "myhttp.com"[6] == '.';
  }

  /** Resolving twice is resolving once: every resolved address is left alone. */
  lemma ResolveIdempotent(text: string)
    ensures Resolve(Resolve(text)) == Resolve(text)
  {
  }

  /** Clicking a history row resolves the row's text again, and the row holds
      a resolved address passed through `str.strip()`. That second resolution
      changes nothing: the row's own text is what gets loaded. */
  lemma RevisitIsStable(text: string)
    ensures Resolve(Strip(Resolve(text))) == Strip(Resolve(text))
  {
    var url := Resolve(text);
    StripKeepsChar(url, '.');
    StripKeepsWord(url, "http");
  }

  /** A row without a dot is not stable under a second pass: it becomes a
      search query. Rows recorded from a tab's own address report need not be
      resolved addresses, so clicking them can load something else. */
  lemma DotlessRowChanges(row: string)
    requires '.' !in row
    ensures Resolve(row) == SearchPrefix + row && Resolve(row) != row
  {
    assert |SearchPrefix + row| > |row|;
  }

  /** A reported local address such as `http://localhost:8000/` has no dot,
      so clicking its history row runs a search for it. */
  lemma LocalhostRowBecomesSearch()
    ensures Resolve("http://localhost:8000/") == "https://duckduckgo.com/?q=http://localhost:8000/"
  {
    var row := "http://localhost:8000/";
    assert '.' !in row;
    calc {
      Resolve(row);
      SearchPrefix + row;
      "https://duckduckgo.com/?q=http://localhost:8000/";
    }
  }

  /** A dotted input without any 'h' cannot contain "http", so it gets the
      scheme: `openai.com` is loaded as `https://openai.com`. */
  lemma DottedWithoutH(text: string)
    requires '.' in text && 'h' !in text
    ensures Resolve(text) == SchemePrefix + text
  {
    MissingFirstChar(text, "http");
  }

  /** A word without a dot becomes a search query. */
  lemma SearchExample()
    ensures Resolve("weather") == "https://duckduckgo.com/?q=weather"
  {
    var query := "weather";
    assert '.' !in query;
    calc {
      Resolve(query);
      SearchPrefix + query;
      "https://duckduckgo.com/?q=weather";
    }
  }

  /** The query is not escaped: a space reaches the search address as typed. */
  lemma UnescapedExample()
    ensures Resolve("a b") == "https://duckduckgo.com/?q=a b"
  {
    var query := "a b";
    assert '.' !in query;
    calc {
      Resolve(query);
      SearchPrefix + query;
      "https://duckduckgo.com/?q=a b";
    }
  }
}
