/**
  Printing of Nix string literals (`nix_string_literal` in snix-redox/src/rebuild.rs) against
  the reading rules of the "String literal" section of the Nix language manual.
 */
module NixString {
  import opened Results

  // ----- Printing -----

  /** How one character is written, given the character after it. */
  function Escape(c: char, next: Option<char>): string {
    if c == '\\' then "\\\\"
    else if c == '"' then "\\\""
    else if c == '\n' then "\\n"
    else if c == '\r' then "\\r"
    else if c == '\t' then "\\t"
    else if c == '$' && next == Some('{') then "\\$"
    else [c]
  }

  function Peek(s: string): Option<char> {
    if s == [] then None else Some(s[0])
  }

  function Body(value: string): string {
    if value == [] then [] else Escape(value[0], Peek(value[1..])) + Body(value[1..])
  }

  method NixStringLiteral(value: string) returns (quoted: string)
    ensures ReadLiteral(quoted) == Some(value)
    ensures quoted == "\"" + Body(value) + "\""
  {
    quoted := "\"";
    var rest := value;
    while rest != []
      invariant |rest| <= |value| && rest == value[|value| - |rest|..]
      invariant quoted + Body(rest) == "\"" + Body(value)
      decreases |rest|
    {
      var c := rest[0];
      Regroup(quoted, Escape(c, Peek(rest[1..])), Body(rest[1..]));
      quoted := quoted + Escape(c, Peek(rest[1..]));
      rest := rest[1..];
    }
    assert quoted + Body([]) == quoted;
    quoted := quoted + "\"";
    ReadPrinted(value);
    Regroup("\"", Body(value), "\"");
  }

  // ----- Reading -----

  /** What a backslash followed by `c` stands for. */
  function Unescape(c: char): char {
    if c == 'n' then '\n' else if c == 'r' then '\r' else if c == 't' then '\t' else c
  }

  function Prepend(c: char, r: Option<string>): Option<string> {
    if r.None? then None else Some([c] + r.value)
  }

  /** The characters after the opening quote, up to a closing quote that ends the text; `None`
      for an antiquotation or an unterminated literal. A dollar sign takes an ordinary character
      after it along, so that the second of two dollar signs does not open an antiquotation. */
  function ReadBody(s: string): Option<string>
    decreases |s|
  {
    if s == [] then None
    else if s[0] == '"' then (if |s| == 1 then Some([]) else None)
    else if s[0] == '\\' then (if |s| == 1 then None else Prepend(Unescape(s[1]), ReadBody(s[2..])))
    else if s[0] == '$' then
      if |s| == 1 || s[1] == '{' then None
      else if s[1] == '"' || s[1] == '\\' then Prepend('$', ReadBody(s[1..]))
      else Prepend('$', ReadRaw(s[1..]))
    else ReadRaw(s)
  }

  /** One character taken as it is, except that a carriage return, alone or before a line feed, reads as a line feed. */
  function ReadRaw(s: string): Option<string>
    requires s != []
    decreases |s|, 0
  {
    if s[0] != '\r' then Prepend(s[0], ReadBody(s[1..]))
    else if |s| > 1 && s[1] == '\n' then Prepend('\n', ReadBody(s[2..]))
    else Prepend('\n', ReadBody(s[1..]))
  }

  function ReadLiteral(s: string): Option<string> {
    if s == [] || s[0] != '"' then None else ReadBody(s[1..])
  }

  // ----- Round trip -----

  predicate IsRaw(value: string)
    requires value != []
  {
    Escape(value[0], Peek(value[1..])) == [value[0]]
  }

  lemma EscapedFirst(value: string)
    requires value != []
    ensures Body(value) + "\"" == Escape(value[0], Peek(value[1..])) + (Body(value[1..]) + "\"")
  {
  }

  /** The reader's view of a printed body: what comes first, and what follows. */
  lemma RawText(value: string)
    requires value != [] && IsRaw(value)
    ensures var text := Body(value) + "\""; text != [] && text[0] == value[0] && text[1..] == Body(value[1..]) + "\""
  {
    EscapedFirst(value);
  }

  lemma EscapedText(value: string)
    requires value != [] && !IsRaw(value)
    ensures var text := Body(value) + "\"";
            |text| > 2 && text[0] == '\\' && Unescape(text[1]) == value[0] && text[2..] == Body(value[1..]) + "\""
  {
    EscapedFirst(value);
    var e := Escape(value[0], Peek(value[1..]));
    EscapeUndone(value[0], Peek(value[1..]));
  }

  lemma EscapeUndone(c: char, next: Option<char>)
    ensures var e := Escape(c, next); e == [c] || (|e| == 2 && e[0] == '\\' && Unescape(e[1]) == c)
  {
  }

  lemma Regroup(a: string, b: string, c: string)
    ensures a + (b + c) == (a + b) + c
  {
  }

  lemma ReadRawPrinted(value: string)
    requires value != [] && IsRaw(value) && ReadBody(Body(value[1..]) + "\"") == Some(value[1..])
    ensures ReadRaw(Body(value) + "\"") == Some(value)
  {
    RawText(value);
    assert value == [value[0]] + value[1..];
  }

  /** A dollar sign that stands for itself, followed by the end, by an escape, or by a plain
      character, possibly another dollar sign. */
  lemma DollarPrinted(value: string)
    requires value != [] && value[0] == '$' && IsRaw(value)
    requires ReadBody(Body(value[1..]) + "\"") == Some(value[1..])
    requires |value| > 1 ==> ReadBody(Body(value[2..]) + "\"") == Some(value[2..])
    ensures ReadBody(Body(value) + "\"") == Some(value)
  {
    var rest := value[1..];
    RawText(value);
    assert value == ['$'] + rest;
    if rest != [] {
      if IsRaw(rest) {
        RawText(rest);
        assert rest[1..] == value[2..];
        ReadRawPrinted(rest);
      } else {
        EscapedText(rest);
      }
    }
  }

  /** A printed body reads back as what was printed. */
  lemma {:induction false} ReadPrinted(value: string)
    ensures ReadBody(Body(value) + "\"") == Some(value)
    decreases |value|
  {
    if value != [] {
      ReadPrinted(value[1..]);
      assert value == [value[0]] + value[1..];
      if !IsRaw(value) {
        EscapedText(value);
      } else if value[0] == '$' {
        if |value| > 1 { ReadPrinted(value[2..]); }
        DollarPrinted(value);
      } else {
        RawText(value);
        ReadRawPrinted(value);
      }
    }
  }

  // ----- What the text looks like -----

  predicate IsPlain(c: char) {
    c != '\\' && c != '"' && c != '\n' && c != '\r' && c != '\t' && c != '$'
  }

  /** Text without special characters is printed as it is. */
  lemma {:induction false} PlainPrinted(value: string)
    requires forall i :: 0 <= i < |value| ==> IsPlain(value[i])
    ensures Body(value) == value
  {
    if value != [] {
      PlainPrinted(value[1..]);
      assert value == [value[0]] + value[1..];
    }
  }

  /** No line break and no tabulator is printed, whatever the text contains. */
  lemma {:induction false} NoBreakPrinted(value: string)
    ensures forall i :: 0 <= i < |Body(value)| ==>
              Body(value)[i] != '\n' && Body(value)[i] != '\r' && Body(value)[i] != '\t'
  {
    if value != [] {
      NoBreakPrinted(value[1..]);
      var e := Escape(value[0], Peek(value[1..]));
      forall i | 0 <= i < |e| ensures e[i] != '\n' && e[i] != '\r' && e[i] != '\t' {
      }
    }
  }
}
