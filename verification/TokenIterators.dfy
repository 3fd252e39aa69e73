// The token iterator (boost/token_iterator.hpp), which owns a tokenizer function and calls it until it returns
// false, and the loop over all tokens that its users write.

module TokenIterators {
  import C = CharSeparators
  import L = EscapedLists

  // The template parameter TokenizerFunc, for the two functions that are modelled.
  datatype TokenizerFunction =
    | CharFunction(chars: C.CharSeparator)
    | ListFunction(list: L.EscapedListSeparator)
  {
    ghost function Objects(): set<object> {
      match this
      case CharFunction(chars) => {chars}
      case ListFunction(list) => {list}
    }

    // The next call, if it succeeds, leaves the input where it is.
    ghost predicate Stays(s: string)
      reads Objects()
    {
      match this
      case CharFunction(chars) =>
        chars.settings.policy.KeepEmptyTokens? && !chars.outputDone && (s == [] || chars.settings.IsDelimiter(s[0]))
      case ListFunction(_) => s == []
    }

    // What calls on the remaining input still hand out.
    ghost function Pending(s: string): L.Result<seq<string>>
      reads Objects()
    {
      match this
      case CharFunction(chars) => L.Ok(C.Iterate(chars.settings, s, chars.outputDone))
      case ListFunction(list) => L.Iterate(list.specials, s, list.last)
    }

    ghost function Measure(s: string): nat
      reads Objects()
    {
      match this
      case CharFunction(chars) => C.Measure(s, chars.outputDone)
      case ListFunction(list) => L.Measure(s, list.last)
    }

    // reset(): a separator for characters does nothing.
    method Reset()
      modifies Objects()
      ensures CharFunction? ==> chars.outputDone == old(chars.outputDone)
      ensures ListFunction? ==> !list.last
    {
      match this
      case CharFunction(chars) => chars.Reset();
      case ListFunction(list) => list.Reset();
    }

    // The function call operator. If it returns, it has handed out the first of the pending tokens, or there
    // was none.
    method Call(input: string, from: nat, was: string) returns (r: L.Result<bool>, next: nat, tok: string)
      requires from <= |input|
      modifies Objects()
      ensures from <= next <= |input|
      ensures match r
              case Err(e) => old(Pending(input[from..])) == L.Err(e)
              case Ok(ok) =>
                && old(Pending(input[from..])) == Push(ok, tok, Pending(input[next..]))
                && (ok ==> Measure(input[next..]) < old(Measure(input[from..])))
                && (ok ==> (next == from <==> old(Stays(input[from..]))))
    {
      match this
      case CharFunction(chars) =>
        var ok;
        ok, next, tok := chars.Next(input, from, was, false);
        if ok {
          C.ScanMakesProgress(chars.settings, input[from..], old(chars.outputDone));
          C.CallsThatDoNotAdvance(chars.settings, input[from..], old(chars.outputDone));
          SamePlace(input, from, next);
        }
        return L.Ok(ok), next, tok;
      case ListFunction(list) =>
        r, next, tok := list.Next(input, from);
        if r == L.Ok(true) {
          L.ScanMakesProgress(list.specials, input[from..], old(list.last));
          L.CallsThatDoNotAdvance(list.specials, input[from..], old(list.last));
          SamePlace(input, from, next);
        }
    }
  }

  lemma SamePlace(input: string, from: nat, next: nat)
    requires from <= next <= |input|
    ensures input[next..] == input[from..] <==> next == from
  {
    assert |input[next..]| == |input| - next && |input[from..]| == |input| - from;
  }

  // The tokens from the current one on: none if the iterator is at its end.
  function Push(valid: bool, tok: string, pending: L.Result<seq<string>>): L.Result<seq<string>> {
    if !valid then L.Ok([]) else match pending case Err(e) => L.Err(e) case Ok(tokens) => L.Ok([tok] + tokens)
  }

  class TokenIterator {
    const f: TokenizerFunction
    const input: string
    var begin: nat
    var valid: bool
    var tok: string

    ghost predicate Valid()
      reads this
    {
      begin <= |input|
    }

    // The tokens this iterator is still to show, the current one first.
    ghost function Ahead(): L.Result<seq<string>>
      requires Valid()
      reads this, f.Objects()
    {
      Push(valid, tok, f.Pending(input[begin..]))
    }

    constructor (g: TokenizerFunction, text: string)
      ensures Valid() && f == g && input == text && begin == 0 && !valid
    {
      f, input, begin, valid, tok := g, text, 0, false, [];
    }

    // token_iterator(): the iterator that all loops compare with.
    constructor End(g: TokenizerFunction)
      ensures Valid() && f == g && input == [] && begin == 0 && !valid
    {
      f, input, begin, valid, tok := g, [], 0, false, [];
    }

    // initialize(): on an empty range the function is not asked.
    method Initialize() returns (r: L.Result<()>)
      requires Valid() && !valid && begin == 0
      modifies this, f.Objects()
      ensures Valid()
      ensures match r
              case Err(e) => input != [] && old(f.Pending(input)) == L.Err(e)
              case Ok(_) => Ahead() == if input == [] then L.Ok([]) else old(f.Pending(input))
    {
      f.Reset();
      assert input[0..] == input;
      if begin != |input| {
        var ok;
        ok, begin, tok := f.Call(input, begin, tok);
        if ok.Err? {
          return L.Err(ok.error);
        }
        valid := ok.value;
      } else {
        valid := false;
      }
      return L.Ok(());
    }

    // equal(): of two iterators that show tokens it compares where they stand in the range, not the tokens;
    // otherwise it says whether both are at their end.
    method Equal(other: TokenIterator) returns (same: bool)
      ensures !valid && !other.valid ==> same
      ensures valid != other.valid ==> !same
      ensures valid && other.valid ==> (same <==> begin == other.begin && |input| == |other.input|)
    {
      if other.valid && valid {
        same := other.begin == begin && |other.input| == |input|;
      } else {
        same := other.valid == valid;
      }
    }

    // increment(): the tokens ahead lose their first. If it still shows a token, the iterator stands where it
    // stood exactly if the call did not advance.
    method Increment() returns (r: L.Result<()>)
      requires Valid() && valid
      modifies this, f.Objects()
      ensures Valid()
      ensures match r
              case Err(e) => old(f.Pending(input[begin..])) == L.Err(e)
              case Ok(_) =>
                && Ahead() == old(f.Pending(input[begin..]))
                && (valid ==> f.Measure(input[begin..]) < old(f.Measure(input[begin..])))
                && (valid ==> (begin == old(begin) <==> old(f.Stays(input[begin..]))))
    {
      var ok;
      ok, begin, tok := f.Call(input, begin, tok);
      if ok.Err? {
        return L.Err(ok.error);
      }
      valid := ok.value;
      return L.Ok(());
    }
  }

  // Comparing is reflexive, symmetric and transitive.
  method EqualIsAnEquivalence(a: TokenIterator, b: TokenIterator, c: TokenIterator)
    returns (aa: bool, ab: bool, ba: bool, bc: bool, ac: bool)
    ensures aa && ab == ba && (ab && bc ==> ac)
  {
    aa := a.Equal(a);
    ab := a.Equal(b);
    ba := b.Equal(a);
    bc := b.Equal(c);
    ac := a.Equal(c);
  }

  // The tokens collected already in front of those ahead.
  function After(tokens: seq<string>, ahead: L.Result<seq<string>>): L.Result<seq<string>> {
    match ahead case Err(e) => L.Err(e) case Ok(ts) => L.Ok(tokens + ts)
  }

  lemma AfterNothing(ahead: L.Result<seq<string>>)
    ensures After([], ahead) == ahead
  {
    if ahead.Ok? {
      assert [] + ahead.value == ahead.value;
    }
  }

  lemma AfterPush(tokens: seq<string>, tok: string, pending: L.Result<seq<string>>)
    ensures After(tokens, Push(true, tok, pending)) == After(tokens + [tok], pending)
  {
    if pending.Ok? {
      assert tokens + ([tok] + pending.value) == tokens + [tok] + pending.value;
    }
  }

  // The loop over all tokens of a range, or the exception that ends it.
  method Collect(f: TokenizerFunction, input: string) returns (r: L.Result<seq<string>>)
    modifies f.Objects()
    ensures r == if input == [] then L.Ok([]) else old(f.Pending(input))
  {
    ghost var all := f.Pending(input);
    var it := new TokenIterator(f, input);
    var started := it.Initialize();
    if started.Err? {
      return L.Err(started.error);
    }
    all := it.Ahead();
    var tokens := [];
    AfterNothing(all);
    var end := new TokenIterator.End(f);
    var ended := it.Equal(end);
    while !ended
      invariant it.Valid() && it.f == f && it.input == input && !end.valid && end != it
      invariant ended <==> !it.valid
      invariant all == After(tokens, it.Ahead())
      decreases it.valid, f.Measure(input[it.begin..])
    {
      AfterPush(tokens, it.tok, f.Pending(input[it.begin..]));
      tokens := tokens + [it.tok];
      var moved := it.Increment();
      if moved.Err? {
        return L.Err(moved.error);
      }
      ended := it.Equal(end);
    }
    assert tokens + [] == tokens;
    return L.Ok(tokens);
  }

  // Iterating a character separator over a range yields the fields of the text, the empty ones only if they
  // are to be kept; an empty text has no tokens. In terms of the characters given: a delimiter stands in no token
  // that is longer than it; if no character is both dropped and kept, the dropped ones are in no token and
  // nothing else is missing.
  method SplitChars(t: C.Settings, input: string) returns (tokens: seq<string>)
    ensures tokens == if input == [] then []
                      else if t.policy.KeepEmptyTokens? then C.Fields(t, input)
                      else C.NonEmpty(C.Fields(t, input))
    ensures |t.dropped| > 0 ==> forall word, c :: word in tokens && c in word && c in t.dropped ==> word == [c]
    ensures |t.kept| > 0 ==> forall word, c :: word in tokens && c in word && c in t.kept ==> word == [c]
    ensures |t.dropped| > 0 && (|t.kept| > 0 || !t.useIspunct) && (forall c :: c in t.dropped ==> c !in t.kept) ==>
              && (forall word, c :: word in tokens && c in word ==> c !in t.dropped)
              && C.Flatten(tokens) == C.Without(input, c => c in t.dropped)
    ensures t.dropped == [] && t.kept == [] && t.useIspunct && t.useIsspace
            && (forall c :: !(t.ispunct(c) && t.isspace(c))) ==>
              && (forall word, c :: word in tokens && c in word ==> !t.isspace(c) && (t.ispunct(c) ==> word == [c]))
              && C.Flatten(tokens) == C.Without(input, c => t.isspace(c))
  {
    var chars := new C.CharSeparator(t);
    var r := Collect(CharFunction(chars), input);
    tokens := r.value;
    if t.policy.KeepEmptyTokens? {
      C.IterateKeepingIsFields(t, input, false);
    } else {
      C.IterateDroppingIsNonEmptyFields(t, input, false);
    }
    InTermsOfCharacters(t, input, tokens);
  }

  lemma InTermsOfCharacters(t: C.Settings, input: string, tokens: seq<string>)
    requires C.IsSplit(t, input, tokens)
    ensures |t.dropped| > 0 ==> forall word, c :: word in tokens && c in word && c in t.dropped ==> word == [c]
    ensures |t.kept| > 0 ==> forall word, c :: word in tokens && c in word && c in t.kept ==> word == [c]
    ensures |t.dropped| > 0 && (|t.kept| > 0 || !t.useIspunct) && (forall c :: c in t.dropped ==> c !in t.kept) ==>
              && (forall word, c :: word in tokens && c in word ==> c !in t.dropped)
              && C.Flatten(tokens) == C.Without(input, c => c in t.dropped)
    ensures t.dropped == [] && t.kept == [] && t.useIspunct && t.useIsspace
            && (forall c :: !(t.ispunct(c) && t.isspace(c))) ==>
              && (forall word, c :: word in tokens && c in word ==> !t.isspace(c) && (t.ispunct(c) ==> word == [c]))
              && C.Flatten(tokens) == C.Without(input, c => t.isspace(c))
  {
    C.SplitStandsAlone(t, input, tokens);
    if |t.dropped| > 0 && (|t.kept| > 0 || !t.useIspunct) && forall c :: c in t.dropped ==> c !in t.kept {
      C.SplitByStrings(t, input, tokens);
    }
    if t.dropped == [] && t.kept == [] && t.useIspunct && t.useIsspace
       && forall c :: !(t.ispunct(c) && t.isspace(c)) {
      C.SplitByClasses(t, input, tokens);
    }
  }

  // Iterating an escaped list separator over a non-empty range parses the text: it fails exactly on a bad escape
  // sequence, and otherwise there is one token more than separators, and the tokens are the text.
  method SplitList(p: L.Specials, input: string) returns (r: L.Result<seq<string>>)
    ensures r == if input == [] then L.Ok([]) else L.Parse(p, input, false)
    ensures r.Err? <==> exists i :: 0 <= i < |input| && L.IsBadEscape(p, input, i)
    ensures r.Ok? && input != [] ==>
              |r.value| == 1 + L.SeparatorsFrom(p, input, 0) && L.Flatten(r.value) == L.TextFrom(p, input, 0)
  {
    var list := new L.EscapedListSeparator(p.escape, p.delimiter, p.quote);
    r := Collect(ListFunction(list), input);
    L.IterateIsParse(p, input, false);
    if input != [] {
      L.TokenCount(p, input);
    }
  }
}
