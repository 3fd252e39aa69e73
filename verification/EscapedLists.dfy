// The escaped list separator (boost/token_functions.hpp, escaped_list_separator): fields separated by
// delimiters, with quoting and with escape sequences that may be wrong, in which case the call throws.
//
// The reference is Parse, which reads the input once, one character or escape sequence at a time, and knows
// neither calls nor the flag last_ that remembers a delimiter at the very end.

module EscapedLists {

  // The two exceptions of do_escape.
  datatype Error = EndsWithEscape | UnknownEscape

  datatype Result<T> = Ok(value: T) | Err(error: Error)

  // The three character sets. They need not be disjoint: escape is asked first, then delimiter, then quote.
  datatype Specials = Specials(escape: string, delimiter: string, quote: string) {
    predicate IsEscape(c: char) { c in escape }
    predicate IsC(c: char) { c in delimiter }
    predicate IsQuote(c: char) { c in quote }

    predicate IsSpecial(c: char) {
      IsEscape(c) || IsC(c) || IsQuote(c)
    }

    // The character an escape sequence stands for, from the one behind the escape character.
    function Unescape(c: char): Result<char> {
      if c == 'n' then Ok('\n') else if IsSpecial(c) then Ok(c) else Err(UnknownEscape)
    }
  }

  // ----- One call -----

  // The result of a call on the remaining input: the token, what is left, and the new value of last_.
  datatype Scan = Exhausted | Found(token: string, rest: string, last: bool) | Threw(error: Error)

  // The loop, from a point where tok has been collected and the quoting is as given.
  function ScanField(p: Specials, s: string, inQuote: bool, tok: string): Scan
    decreases |s|
  {
    if s == [] then
      Found(tok, [], false)
    else if p.IsEscape(s[0]) then
      if |s| == 1 then Threw(EndsWithEscape)
      else match p.Unescape(s[1])
        case Ok(c) => ScanField(p, s[2..], inQuote, tok + [c])
        case Err(e) => Threw(e)
    else if p.IsC(s[0]) && !inQuote then
      Found(tok, s[1..], true)
    else if !p.IsC(s[0]) && p.IsQuote(s[0]) then
      ScanField(p, s[1..], !inQuote, tok)
    else
      ScanField(p, s[1..], inQuote, tok + [s[0]])
  }

  function ScanOnce(p: Specials, s: string, last: bool): Scan {
    if s == [] then
      if last then Found([], [], false) else Exhausted
    else
      ScanField(p, s, false, [])
  }

  function Measure(s: string, last: bool): nat {
    2 * |s| + if last then 1 else 0
  }

  lemma {:induction false} ScanFieldShrinks(p: Specials, s: string, inQuote: bool, tok: string)
    requires ScanField(p, s, inQuote, tok).Found?
    ensures var f := ScanField(p, s, inQuote, tok);
            |f.rest| <= |s| && (f.last ==> |f.rest| < |s|) && (f.rest != [] ==> f.last)
    decreases |s|
  {
    if s != [] {
      if p.IsEscape(s[0]) {
        ScanFieldShrinks(p, s[2..], inQuote, tok + [p.Unescape(s[1]).value]);
      } else if p.IsC(s[0]) && !inQuote {
      } else if !p.IsC(s[0]) && p.IsQuote(s[0]) {
        ScanFieldShrinks(p, s[1..], !inQuote, tok);
      } else {
        ScanFieldShrinks(p, s[1..], inQuote, tok + [s[0]]);
      }
    }
  }

  lemma ScanMakesProgress(p: Specials, s: string, last: bool)
    requires ScanOnce(p, s, last).Found?
    ensures var f := ScanOnce(p, s, last); Measure(f.rest, f.last) < Measure(s, last)
  {
    if s != [] {
      ScanFieldShrinks(p, s, false, []);
    }
  }

  lemma {:induction false} ScanFieldConsumes(p: Specials, s: string, inQuote: bool, tok: string)
    requires ScanField(p, s, inQuote, tok).Found? && s != []
    ensures |ScanField(p, s, inQuote, tok).rest| < |s|
  {
    if p.IsEscape(s[0]) {
      ScanFieldShrinks(p, s[2..], inQuote, tok + [p.Unescape(s[1]).value]);
    } else if p.IsC(s[0]) && !inQuote {
    } else if !p.IsC(s[0]) && p.IsQuote(s[0]) {
      ScanFieldShrinks(p, s[1..], !inQuote, tok);
    } else {
      ScanFieldShrinks(p, s[1..], inQuote, tok + [s[0]]);
    }
  }

  // Exactly the call that announces the empty field behind a delimiter at the very end does not advance.
  lemma CallsThatDoNotAdvance(p: Specials, s: string, last: bool)
    requires ScanOnce(p, s, last).Found?
    ensures ScanOnce(p, s, last).rest == s <==> s == []
  {
    if s != [] {
      ScanFieldConsumes(p, s, false, []);
    }
  }

  // Of two tokens in a row whose iterators stand at the same place, the second is the empty field at the end;
  // so they differ unless the first is empty as well.
  lemma SamePlaceOtherToken(p: Specials, s: string, last: bool)
    requires ScanOnce(p, s, last).Found?
    requires var f := ScanOnce(p, s, last); ScanOnce(p, f.rest, f.last).Found?
    ensures var f := ScanOnce(p, s, last);
            var g := ScanOnce(p, f.rest, f.last);
            && (g.rest == f.rest <==> f.rest == [])
            && (g.rest == f.rest ==> (g.token != f.token <==> f.token != []))
  {
    var f := ScanOnce(p, s, last);
    CallsThatDoNotAdvance(p, f.rest, f.last);
  }

  // All the tokens that calls until the first false return hand out, or the exception one of them throws.
  function Iterate(p: Specials, s: string, last: bool): Result<seq<string>>
    decreases Measure(s, last)
  {
    match ScanOnce(p, s, last)
    case Exhausted => Ok([])
    case Threw(e) => Err(e)
    case Found(token, rest, more) =>
      ScanMakesProgress(p, s, last);
      match Iterate(p, rest, more)
      case Err(e) => Err(e)
      case Ok(tokens) => Ok([token] + tokens)
  }

  // ----- The reference -----

  function Extend(c: string, r: Result<seq<string>>): (e: Result<seq<string>>)
    requires r.Ok? ==> |r.value| > 0
    ensures e.Ok? ==> |e.value| > 0
  {
    match r
    case Err(_) => r
    case Ok(fields) => Ok([c + fields[0]] + fields[1..])
  }

  function Separate(r: Result<seq<string>>): (e: Result<seq<string>>)
    ensures e.Ok? ==> |e.value| > 0
  {
    match r
    case Err(_) => r
    case Ok(fields) => Ok([[]] + fields)
  }

  function Parse(p: Specials, s: string, inQuote: bool): (r: Result<seq<string>>)
    ensures r.Ok? ==> |r.value| > 0
    decreases |s|
  {
    if s == [] then
      Ok([[]])
    else if p.IsEscape(s[0]) then
      if |s| == 1 then Err(EndsWithEscape)
      else match p.Unescape(s[1])
        case Ok(c) => Extend([c], Parse(p, s[2..], inQuote))
        case Err(e) => Err(e)
    else if p.IsC(s[0]) && !inQuote then
      Separate(Parse(p, s[1..], false))
    else if !p.IsC(s[0]) && p.IsQuote(s[0]) then
      Parse(p, s[1..], !inQuote)
    else
      Extend([s[0]], Parse(p, s[1..], inQuote))
  }

  // ----- The calls yield the fields -----

  lemma ExtendTwice(a: string, b: string, r: Result<seq<string>>)
    requires r.Ok? ==> |r.value| > 0
    ensures Extend(a, Extend(b, r)) == Extend(a + b, r)
  {
    if r.Ok? {
      var f := r.value;
      var g := [b + f[0]] + f[1..];
      assert g[1..] == f[1..];
      assert a + (b + f[0]) == (a + b) + f[0];
    }
  }

  lemma ExtendNothing(r: Result<seq<string>>)
    requires r.Ok? ==> |r.value| > 0
    ensures Extend([], r) == r
  {
    if r.Ok? {
      assert [] + r.value[0] == r.value[0];
      assert r.value == [r.value[0]] + r.value[1..];
    }
  }

  lemma ExtendSeparate(tok: string, r: Result<seq<string>>)
    ensures Extend(tok, Separate(r)) == match r case Err(_) => r case Ok(f) => Ok([tok] + f)
  {
    if r.Ok? {
      assert tok + [] == tok;
      assert ([[]] + r.value)[1..] == r.value;
    }
  }

  // What one scan means for the fields: it has collected the first, and the rest is parsed unquoted.
  ghost predicate ScanAgrees(p: Specials, whole: Result<seq<string>>, f: Scan) {
    match f
    case Exhausted => false
    case Threw(e) => whole == Err(e)
    case Found(token, rest, false) => rest == [] && whole == Ok([token])
    case Found(token, rest, true) =>
      var r := Parse(p, rest, false);
      whole == match r case Err(_) => r case Ok(fields) => Ok([token] + fields)
  }

  lemma {:induction false} ScanFieldIsFirstField(p: Specials, s: string, inQuote: bool, tok: string)
    ensures ScanAgrees(p, Extend(tok, Parse(p, s, inQuote)), ScanField(p, s, inQuote, tok))
    decreases |s|
  {
    if s == [] {
      assert tok + [] == tok;
      assert [tok] + Parse(p, s, inQuote).value[1..] == [tok];
    } else if p.IsEscape(s[0]) {
      if |s| > 1 && p.Unescape(s[1]).Ok? {
        var c := p.Unescape(s[1]).value;
        ScanFieldIsFirstField(p, s[2..], inQuote, tok + [c]);
        ExtendTwice(tok, [c], Parse(p, s[2..], inQuote));
      }
    } else if p.IsC(s[0]) && !inQuote {
      ExtendSeparate(tok, Parse(p, s[1..], false));
    } else if !p.IsC(s[0]) && p.IsQuote(s[0]) {
      ScanFieldIsFirstField(p, s[1..], !inQuote, tok);
    } else {
      ScanFieldIsFirstField(p, s[1..], inQuote, tok + [s[0]]);
      ExtendTwice(tok, [s[0]], Parse(p, s[1..], inQuote));
    }
  }

  // The calls yield the fields and fail when, and as, the parse fails. Only on the empty input with last_
  // clear do they yield nothing where Parse finds one empty field.
  lemma {:induction false} IterateIsParse(p: Specials, s: string, last: bool)
    ensures Iterate(p, s, last) == if s == [] && !last then Ok([]) else Parse(p, s, false)
    decreases Measure(s, last)
  {
    var f := ScanOnce(p, s, last);
    if s != [] {
      ScanFieldIsFirstField(p, s, false, []);
      ExtendNothing(Parse(p, s, false));
      if f.Found? {
        ScanMakesProgress(p, s, last);
        IterateIsParse(p, f.rest, f.last);
        assert [f.token] + [] == [f.token];
      }
    } else if last {
      ScanMakesProgress(p, s, last);
      IterateIsParse(p, [], false);
      assert [f.token] + [] == [[]];
    }
  }

  // ----- The text by position -----

  // The character at i follows an escape character that is not itself escaped.
  predicate EscapedAt(p: Specials, s: string, i: nat)
    requires i <= |s|
  {
    i > 0 && s[i - 1] in p.escape && !EscapedAt(p, s, i - 1)
  }

  // An odd number of quote characters, outside escape sequences, lies before i.
  predicate QuotedAt(p: Specials, s: string, i: nat)
    requires i <= |s|
  {
    i > 0 && QuotedAt(p, s, i - 1) != IsQuoteMark(p, s, i - 1)
  }

  // The three kinds of special position. A character in several sets is an escape first, then a delimiter.
  predicate IsEscapeMark(p: Specials, s: string, i: nat)
    requires i < |s|
  {
    s[i] in p.escape && !EscapedAt(p, s, i)
  }

  predicate IsQuoteMark(p: Specials, s: string, i: nat)
    requires i < |s|
  {
    s[i] in p.quote && s[i] !in p.delimiter && s[i] !in p.escape && !EscapedAt(p, s, i)
  }

  predicate IsSeparator(p: Specials, s: string, i: nat)
    requires i < |s|
  {
    s[i] in p.delimiter && s[i] !in p.escape && !EscapedAt(p, s, i) && !QuotedAt(p, s, i)
  }

  // An escape character that is not escaped and is the last one, or stands before a character that is no n and
  // in none of the sets.
  predicate IsBadEscape(p: Specials, s: string, i: nat)
    requires i < |s|
  {
    IsEscapeMark(p, s, i)
    && (i + 1 == |s|
        || (s[i + 1] != 'n' && s[i + 1] !in p.escape && s[i + 1] !in p.delimiter && s[i + 1] !in p.quote))
  }

  function SeparatorsFrom(p: Specials, s: string, i: nat): nat
    requires i <= |s|
    decreases |s| - i
  {
    if i == |s| then 0 else (if IsSeparator(p, s, i) then 1 else 0) + SeparatorsFrom(p, s, i + 1)
  }

  // What the tokens say, one after the other: the marks and separators are left out, an escaped n is a newline,
  // and everything else stands for itself.
  function TextFrom(p: Specials, s: string, i: nat): string
    requires i <= |s|
    decreases |s| - i
  {
    if i == |s| then
      []
    else if IsEscapeMark(p, s, i) || IsQuoteMark(p, s, i) || IsSeparator(p, s, i) then
      TextFrom(p, s, i + 1)
    else
      [if EscapedAt(p, s, i) && s[i] == 'n' then '\n' else s[i]] + TextFrom(p, s, i + 1)
  }

  function Flatten(words: seq<string>): string {
    if words == [] then [] else words[0] + Flatten(words[1..])
  }

  ghost predicate BadEscapeFrom(p: Specials, s: string, i: nat)
    requires i <= |s|
  {
    exists j :: i <= j < |s| && IsBadEscape(p, s, j)
  }

  // The first bad escape is the last character: no other is bad.
  ghost predicate OnlyEndIsBad(p: Specials, s: string, i: nat)
    requires i <= |s|
  {
    forall j :: i <= j < |s| && IsBadEscape(p, s, j) ==> j + 1 == |s|
  }

  // What parsing from position i is to give.
  ghost predicate ParsedFrom(p: Specials, s: string, i: nat, r: Result<seq<string>>)
    requires i <= |s|
  {
    && (r.Err? <==> BadEscapeFrom(p, s, i))
    && (r.Err? ==> (r.error.EndsWithEscape? <==> OnlyEndIsBad(p, s, i)))
    && (r.Ok? ==> |r.value| == 1 + SeparatorsFrom(p, s, i) && Flatten(r.value) == TextFrom(p, s, i))
  }

  lemma FlattenExtend(c: string, r: Result<seq<string>>)
    requires r.Ok? && |r.value| > 0
    ensures Flatten(Extend(c, r).value) == c + Flatten(r.value)
  {
    var f := r.value;
    var e := Extend(c, r).value;
    assert e[0] == c + f[0] && e[1..] == f[1..];
    assert c + f[0] + Flatten(f[1..]) == c + (f[0] + Flatten(f[1..]));
  }

  lemma FlattenSeparate(r: Result<seq<string>>)
    requires r.Ok?
    ensures Flatten(Separate(r).value) == Flatten(r.value)
  {
    var e := Separate(r).value;
    assert e[0] == [] && e[1..] == r.value;
  }

  // A position that is not bad passes on what is true from the next.
  lemma BadEscapeNext(p: Specials, s: string, i: nat)
    requires i < |s| && !IsBadEscape(p, s, i)
    ensures BadEscapeFrom(p, s, i) <==> BadEscapeFrom(p, s, i + 1)
    ensures OnlyEndIsBad(p, s, i) <==> OnlyEndIsBad(p, s, i + 1)
  {
  }

  lemma BadEscapeHere(p: Specials, s: string, i: nat)
    requires i < |s| && IsBadEscape(p, s, i)
    ensures BadEscapeFrom(p, s, i) && (OnlyEndIsBad(p, s, i) <==> i + 1 == |s|)
  {
  }

  // From a position between characters, the parse fails exactly on a bad escape and otherwise finds one field
  // more than there are separators, and the text.
  lemma {:induction false} ParseFrom(p: Specials, s: string, i: nat)
    requires i <= |s| && !EscapedAt(p, s, i)
    ensures ParsedFrom(p, s, i, Parse(p, s[i..], QuotedAt(p, s, i)))
    decreases |s| - i
  {
    if i < |s| {
      if IsBadEscape(p, s, i) {
        BadEscapeHere(p, s, i);
      } else if s[i] in p.escape {
        ParseFrom(p, s, i + 2);
        ParsePastEscape(p, s, i);
      } else {
        ParseFrom(p, s, i + 1);
        ParsePastCharacter(p, s, i);
      }
    }
  }

  lemma ParsePastEscape(p: Specials, s: string, i: nat)
    requires i + 1 < |s| && !EscapedAt(p, s, i) && s[i] in p.escape && !IsBadEscape(p, s, i)
    requires ParsedFrom(p, s, i + 2, Parse(p, s[i + 2..], QuotedAt(p, s, i + 2)))
    ensures ParsedFrom(p, s, i, Parse(p, s[i..], QuotedAt(p, s, i)))
  {
    EscapeSkipsTwo(p, s, i);
    assert s[i..][2..] == s[i + 2..];
    var r := Parse(p, s[i + 2..], QuotedAt(p, s, i));
    var c := if s[i + 1] == 'n' then '\n' else s[i + 1];
    assert p.Unescape(s[i + 1]) == Ok(c);
    if r.Ok? {
      FlattenExtend([c], r);
    }
  }

  lemma EscapeSkipsTwo(p: Specials, s: string, i: nat)
    requires i + 1 < |s| && !EscapedAt(p, s, i) && s[i] in p.escape && !IsBadEscape(p, s, i)
    ensures !EscapedAt(p, s, i + 2) && QuotedAt(p, s, i + 2) == QuotedAt(p, s, i)
    ensures SeparatorsFrom(p, s, i) == SeparatorsFrom(p, s, i + 2)
    ensures TextFrom(p, s, i) == [if s[i + 1] == 'n' then '\n' else s[i + 1]] + TextFrom(p, s, i + 2)
    ensures BadEscapeFrom(p, s, i) <==> BadEscapeFrom(p, s, i + 2)
    ensures OnlyEndIsBad(p, s, i) <==> OnlyEndIsBad(p, s, i + 2)
  {
    assert EscapedAt(p, s, i + 1);
    assert !IsQuoteMark(p, s, i) && !IsQuoteMark(p, s, i + 1);
    assert QuotedAt(p, s, i + 1) == QuotedAt(p, s, i);
    assert !IsBadEscape(p, s, i + 1);
    BadEscapeNext(p, s, i);
    BadEscapeNext(p, s, i + 1);
    assert SeparatorsFrom(p, s, i) == SeparatorsFrom(p, s, i + 1);
    assert TextFrom(p, s, i) == TextFrom(p, s, i + 1);
  }

  lemma ParsePastCharacter(p: Specials, s: string, i: nat)
    requires i < |s| && !EscapedAt(p, s, i) && s[i] !in p.escape
    requires ParsedFrom(p, s, i + 1, Parse(p, s[i + 1..], QuotedAt(p, s, i + 1)))
    ensures ParsedFrom(p, s, i, Parse(p, s[i..], QuotedAt(p, s, i)))
  {
    BadEscapeNext(p, s, i);
    assert s[i..][1..] == s[i + 1..];
    var r := Parse(p, s[i + 1..], QuotedAt(p, s, i + 1));
    if r.Ok? {
      FlattenSeparate(r);
      FlattenExtend([s[i]], r);
    }
  }

  // On non-empty input the iteration throws exactly when there is a bad escape sequence, and says which kind the
  // first one is; otherwise it yields one token more than there are delimiters outside quotes and escape
  // sequences, and the tokens are the text.
  lemma TokenCount(p: Specials, s: string)
    requires s != []
    ensures var r := Iterate(p, s, false);
            && (r.Err? <==> exists i :: 0 <= i < |s| && IsBadEscape(p, s, i))
            && (r.Err? ==>
                  (r.error.EndsWithEscape? <==> forall i :: 0 <= i < |s| && IsBadEscape(p, s, i) ==> i + 1 == |s|))
            && (r.Ok? ==> |r.value| == 1 + SeparatorsFrom(p, s, 0) && Flatten(r.value) == TextFrom(p, s, 0))
  {
    IterateIsParse(p, s, false);
    assert s[0..] == s;
    ParseFrom(p, s, 0);
  }

  // ----- Writing and reading back -----

  // The characters a writer uses, one of each set.
  datatype Writer = Writer(escape: char, delimiter: char, quote: char)

  // Each is recognised for what it is meant to be.
  predicate Usable(p: Specials, w: Writer) {
    && p.IsEscape(w.escape)
    && p.IsC(w.delimiter) && !p.IsEscape(w.delimiter)
    && p.IsQuote(w.quote) && !p.IsC(w.quote) && !p.IsEscape(w.quote)
  }

  // The characters that cannot stand for themselves; inside quotes a delimiter can.
  predicate NeedsEscape(p: Specials, c: char, quoted: bool) {
    p.IsEscape(c) || if p.IsC(c) then !quoted else p.IsQuote(c)
  }

  function EncodeText(p: Specials, w: Writer, text: string, quoted: bool): string {
    if text == [] then
      []
    else
      (if NeedsEscape(p, text[0], quoted) then [w.escape, text[0]] else [text[0]])
      + EncodeText(p, w, text[1..], quoted)
  }

  function EncodeField(p: Specials, w: Writer, text: string, quoted: bool): string {
    if quoted then [w.quote] + EncodeText(p, w, text, true) + [w.quote] else EncodeText(p, w, text, false)
  }

  // The fields, each quoted or not, with a delimiter between each two.
  function Encode(p: Specials, w: Writer, fields: seq<string>, quoted: seq<bool>): string
    requires |fields| == |quoted|
  {
    if fields == [] then
      []
    else
      var first := EncodeField(p, w, fields[0], quoted[0]);
      if |fields| == 1 then first else first + [w.delimiter] + Encode(p, w, fields[1..], quoted[1..])
  }

  // What reading brings back for a character: an escaped n is the newline.
  function RestoredChar(p: Specials, c: char, quoted: bool): char {
    if c == 'n' && NeedsEscape(p, c, quoted) then '\n' else c
  }

  function Restored(p: Specials, text: string, quoted: bool): (r: string)
    ensures |r| == |text| && forall i :: 0 <= i < |r| ==> r[i] == RestoredChar(p, text[i], quoted)
  {
    if text == [] then [] else [RestoredChar(p, text[0], quoted)] + Restored(p, text[1..], quoted)
  }

  function RestoredFields(p: Specials, fields: seq<string>, quoted: seq<bool>): (r: seq<string>)
    requires |fields| == |quoted|
    ensures |r| == |fields|
    ensures forall i :: 0 <= i < |r| ==> r[i] == Restored(p, fields[i], quoted[i])
  {
    if fields == [] then
      []
    else
      [Restored(p, fields[0], quoted[0])] + RestoredFields(p, fields[1..], quoted[1..])
  }

  lemma ParseEncodedChar(p: Specials, w: Writer, c: char, quoted: bool, tail: string)
    requires Usable(p, w)
    ensures var code := if NeedsEscape(p, c, quoted) then [w.escape, c] else [c];
            Parse(p, code + tail, quoted) == Extend([RestoredChar(p, c, quoted)], Parse(p, tail, quoted))
  {
    if NeedsEscape(p, c, quoted) {
      assert ([w.escape, c] + tail)[2..] == tail;
    } else {
      assert ([c] + tail)[1..] == tail;
    }
  }

  lemma {:induction false} ParseEncodedText(p: Specials, w: Writer, text: string, quoted: bool, tail: string)
    requires Usable(p, w)
    ensures Parse(p, EncodeText(p, w, text, quoted) + tail, quoted)
            == Extend(Restored(p, text, quoted), Parse(p, tail, quoted))
  {
    if text == [] {
      assert [] + tail == tail;
      ExtendNothing(Parse(p, tail, quoted));
    } else {
      var code := if NeedsEscape(p, text[0], quoted) then [w.escape, text[0]] else [text[0]];
      var more := EncodeText(p, w, text[1..], quoted);
      assert (code + more) + tail == code + (more + tail);
      ParseEncodedChar(p, w, text[0], quoted, more + tail);
      ParseEncodedText(p, w, text[1..], quoted, tail);
      ExtendTwice([RestoredChar(p, text[0], quoted)], Restored(p, text[1..], quoted), Parse(p, tail, quoted));
    }
  }

  lemma ParseQuote(p: Specials, w: Writer, tail: string, inQuote: bool)
    requires Usable(p, w)
    ensures Parse(p, [w.quote] + tail, inQuote) == Parse(p, tail, !inQuote)
  {
    assert ([w.quote] + tail)[1..] == tail;
  }

  lemma ParseEncodedField(p: Specials, w: Writer, text: string, quoted: bool, tail: string)
    requires Usable(p, w)
    ensures Parse(p, EncodeField(p, w, text, quoted) + tail, false)
            == Extend(Restored(p, text, quoted), Parse(p, tail, false))
  {
    if quoted {
      var body := EncodeText(p, w, text, true);
      assert [w.quote] + body + [w.quote] + tail == [w.quote] + (body + ([w.quote] + tail));
      ParseQuote(p, w, body + ([w.quote] + tail), false);
      ParseEncodedText(p, w, text, true, [w.quote] + tail);
      ParseQuote(p, w, tail, true);
    } else {
      ParseEncodedText(p, w, text, false, tail);
    }
  }

  lemma ParseDelimiter(p: Specials, w: Writer, text: string, tail: string)
    requires Usable(p, w)
    ensures Extend(text, Parse(p, [w.delimiter] + tail, false))
            == match Parse(p, tail, false) case Err(e) => Err(e) case Ok(f) => Ok([text] + f)
  {
    assert ([w.delimiter] + tail)[1..] == tail;
    ExtendSeparate(text, Parse(p, tail, false));
  }

  lemma {:induction false} ParseEncoded(p: Specials, w: Writer, fields: seq<string>, quoted: seq<bool>)
    requires Usable(p, w) && |fields| == |quoted| && fields != []
    ensures Parse(p, Encode(p, w, fields, quoted), false) == Ok(RestoredFields(p, fields, quoted))
  {
    var first := EncodeField(p, w, fields[0], quoted[0]);
    var text := Restored(p, fields[0], quoted[0]);
    if |fields| == 1 {
      assert first + [] == first;
      ParseEncodedField(p, w, fields[0], quoted[0], []);
      assert text + [] == text;
      assert [text] + Parse(p, [], false).value[1..] == RestoredFields(p, fields, quoted);
    } else {
      var more := Encode(p, w, fields[1..], quoted[1..]);
      assert first + [w.delimiter] + more == first + ([w.delimiter] + more);
      ParseEncodedField(p, w, fields[0], quoted[0], [w.delimiter] + more);
      ParseDelimiter(p, w, text, more);
      ParseEncoded(p, w, fields[1..], quoted[1..]);
    }
  }

  lemma EncodedIsEmpty(p: Specials, w: Writer, fields: seq<string>, quoted: seq<bool>)
    requires |fields| == |quoted| && fields != []
    ensures Encode(p, w, fields, quoted) == [] <==> fields == [[]] && !quoted[0]
  {
    if fields[0] != [] {
      assert EncodeText(p, w, fields[0], quoted[0]) != [];
    }
    if |fields| == 1 && fields[0] == [] {
      assert fields == [[]];
    }
  }

  // No letter n has to be escaped.
  ghost predicate SparesN(p: Specials, fields: seq<string>, quoted: seq<bool>)
    requires |fields| == |quoted|
  {
    forall i :: 0 <= i < |fields| && 'n' in fields[i] ==> !NeedsEscape(p, 'n', quoted[i])
  }

  lemma RestoredIsSame(p: Specials, text: string, quoted: bool)
    ensures Restored(p, text, quoted) == text <==> !('n' in text && NeedsEscape(p, 'n', quoted))
  {
    var r := Restored(p, text, quoted);
    if 'n' in text && NeedsEscape(p, 'n', quoted) {
      var i :| 0 <= i < |text| && text[i] == 'n';
      assert r[i] == '\n';
    } else {
      assert forall i :: 0 <= i < |r| ==> r[i] == text[i];
    }
  }

  lemma RestoredFieldsAreSame(p: Specials, fields: seq<string>, quoted: seq<bool>)
    requires |fields| == |quoted|
    ensures RestoredFields(p, fields, quoted) == fields <==> SparesN(p, fields, quoted)
  {
    var r := RestoredFields(p, fields, quoted);
    forall i | 0 <= i < |fields|
      ensures r[i] == fields[i] <==> !('n' in fields[i] && NeedsEscape(p, 'n', quoted[i]))
    {
      RestoredIsSame(p, fields[i], quoted[i]);
    }
    if SparesN(p, fields, quoted) {
      assert forall i :: 0 <= i < |fields| ==> r[i] == fields[i];
    }
  }

  // Tokenising brings back what was written, except for a lone unquoted empty field, which is written as
  // nothing and read as no field, and for an escaped n, which is read as a newline.
  lemma RoundTrip(p: Specials, w: Writer, fields: seq<string>, quoted: seq<bool>)
    requires Usable(p, w) && |fields| == |quoted|
    ensures Iterate(p, Encode(p, w, fields, quoted), false) == Ok(fields)
            <==> !(fields == [[]] && !quoted[0]) && SparesN(p, fields, quoted)
  {
    var s := Encode(p, w, fields, quoted);
    IterateIsParse(p, s, false);
    if fields != [] {
      EncodedIsEmpty(p, w, fields, quoted);
      ParseEncoded(p, w, fields, quoted);
      RestoredFieldsAreSame(p, fields, quoted);
    }
  }

  // ----- The class -----

  class EscapedListSeparator {
    const specials: Specials
    var last: bool

    constructor (e: string, c: string, q: string)
      ensures specials == Specials(e, c, q) && !last
    {
      specials := Specials(e, c, q);
      last := false;
    }

    method Reset()
      modifies this
      ensures !last
    {
      last := false;
    }

    // Called with next on an escape character; leaves it on the character that follows.
    method DoEscape(input: string, from: nat, was: string) returns (r: Result<string>, next: nat)
      requires from < |input|
      ensures next == from + 1
      ensures match r
              case Err(EndsWithEscape) => next == |input|
              case Err(UnknownEscape) => next < |input| && specials.Unescape(input[next]).Err?
              case Ok(tok) => next < |input| && specials.Unescape(input[next]).Ok?
                              && tok == was + [specials.Unescape(input[next]).value]
    {
      next := from + 1;
      if next == |input| {
        return Err(EndsWithEscape), next;
      }
      if input[next] == 'n' {
        return Ok(was + ['\n']), next;
      } else if specials.IsQuote(input[next]) {
        return Ok(was + [input[next]]), next;
      } else if specials.IsC(input[next]) {
        return Ok(was + [input[next]]), next;
      } else if specials.IsEscape(input[next]) {
        return Ok(was + [input[next]]), next;
      } else {
        return Err(UnknownEscape), next;
      }
    }

    // The function call operator on the characters input[from..]; an exception is the result Err.
    method Next(input: string, from: nat) returns (r: Result<bool>, next: nat, tok: string)
      requires from <= |input|
      modifies this
      ensures from <= next <= |input|
      ensures match ScanOnce(specials, input[from..], old(last))
              case Exhausted => r == Ok(false) && next == |input| && tok == [] && last == old(last)
              case Threw(e) => r == Err(e)
              case Found(t, rest, l) => r == Ok(true) && tok == t && input[next..] == rest && last == l
    {
      var inQuote := false;
      next, tok := from, [];
      if next == |input| {
        if last {
          last := false;
          return Ok(true), next, tok;
        } else {
          return Ok(false), next, tok;
        }
      }
      last := false;
      ghost var whole := ScanField(specials, input[from..], false, []);
      while next != |input|
        invariant from <= next <= |input| && !last
        invariant ScanField(specials, input[next..], inQuote, tok) == whole
        decreases |input| - next
      {
        ScanFieldAt(specials, input, next, inQuote, tok);
        if specials.IsEscape(input[next]) {
          var e;
          e, next := DoEscape(input, next, tok);
          if e.Err? {
            return Err(e.error), next, tok;
          }
          tok := e.value;
        } else if specials.IsC(input[next]) {
          if !inQuote {
            next := next + 1;
            last := true;
            return Ok(true), next, tok;
          } else {
            tok := tok + [input[next]];
          }
        } else if specials.IsQuote(input[next]) {
          inQuote := !inQuote;
        } else {
          tok := tok + [input[next]];
        }
        next := next + 1;
      }
      return Ok(true), next, tok;
    }
  }

  // One step of the scan, by position.
  lemma ScanFieldAt(p: Specials, input: string, i: nat, inQuote: bool, tok: string)
    requires i < |input|
    ensures ScanField(p, input[i..], inQuote, tok) ==
            if p.IsEscape(input[i]) then
              if i + 1 == |input| then Threw(EndsWithEscape)
              else match p.Unescape(input[i + 1])
                case Ok(c) => ScanField(p, input[i + 2..], inQuote, tok + [c])
                case Err(e) => Threw(e)
            else if p.IsC(input[i]) && !inQuote then
              Found(tok, input[i + 1..], true)
            else if !p.IsC(input[i]) && p.IsQuote(input[i]) then
              ScanField(p, input[i + 1..], !inQuote, tok)
            else
              ScanField(p, input[i + 1..], inQuote, tok + [input[i]])
  {
    assert input[i..][1..] == input[i + 1..];
    if i + 1 < |input| {
      assert input[i..][2..] == input[i + 2..];
    }
  }
}
