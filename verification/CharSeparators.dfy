// The character separator (boost/token_functions.hpp, char_separator): a scanner that is called again and
// again, hands out one token per call, and under the keep_empty_tokens policy makes some calls that do not
// advance at all, told apart from the others only by the flag m_output_done.
//
// The reference is Fields, which reads the input once, one character at a time, and knows no flag.

module CharSeparators {

  datatype Policy = DropEmptyTokens | KeepEmptyTokens

  // How one character is treated.
  datatype Kind = Plain | Dropped | Kept

  // What the constructors set up. The two classification functions stand for std::ispunct and std::isspace.
  datatype Settings = Settings(
    dropped: string,
    kept: string,
    useIspunct: bool,
    useIsspace: bool,
    policy: Policy,
    ispunct: char -> bool,
    isspace: char -> bool)
  {
    predicate IsKept(c: char) {
      if |kept| > 0 then c in kept else useIspunct && ispunct(c)
    }

    predicate IsDropped(c: char) {
      if |dropped| > 0 then c in dropped else useIsspace && isspace(c)
    }

    predicate IsDelimiter(c: char) {
      IsKept(c) || IsDropped(c)
    }

    // A character in both delimiter sets counts as kept when empty tokens are kept, and as dropped otherwise.
    function KindOf(c: char): Kind {
      if policy.KeepEmptyTokens? then
        if IsKept(c) then Kept else if IsDropped(c) then Dropped else Plain
      else
        if IsDropped(c) then Dropped else if IsKept(c) then Kept else Plain
    }

    ghost predicate Disjoint() {
      forall c :: !(IsKept(c) && IsDropped(c))
    }
  }

  // ----- One call -----

  // The result of a call on the remaining input.
  datatype Scan = Exhausted | Found(token: string, rest: string, outputDone: bool)

  // The longest prefix without delimiters.
  function Run(t: Settings, s: string): (r: string)
    ensures r <= s
    ensures forall c :: c in r ==> !t.IsDelimiter(c)
    ensures |r| < |s| ==> t.IsDelimiter(s[|r|])
  {
    if s == [] || t.IsDelimiter(s[0]) then [] else [s[0]] + Run(t, s[1..])
  }

  lemma RunAt(t: Settings, input: string, i: nat)
    requires i <= |input|
    ensures |Run(t, input[i..])|
            == if i == |input| || t.IsDelimiter(input[i]) then 0 else 1 + |Run(t, input[i + 1..])|
  {
    if i < |input| {
      assert input[i..][1..] == input[i + 1..];
    }
  }

  lemma RunIsSlice(t: Settings, input: string, from: nat, next: nat)
    requires from <= next <= |input|
    requires |Run(t, input[from..])| == next - from
    ensures Run(t, input[from..]) == input[from..next]
    ensures input[from..][next - from..] == input[next..]
  {
    assert input[from..][..next - from] == input[from..next];
  }

  lemma SliceSnoc(input: string, from: nat, next: nat, was: string)
    requires from <= next < |input|
    ensures (was + input[from..next]) + [input[next]] == was + input[from..next + 1]
  {
  }

  // What is left after the dropped delimiters in front.
  function SkipDropped(t: Settings, s: string): (r: string)
    ensures |r| <= |s|
    ensures r != [] ==> !t.IsDropped(r[0])
  {
    if s != [] && t.IsDropped(s[0]) then SkipDropped(t, s[1..]) else s
  }

  function TakeRun(t: Settings, s: string): Scan {
    var run := Run(t, s);
    Found(run, s[|run|..], true)
  }

  // A call under keep_empty_tokens.
  function ScanKeeping(t: Settings, s: string, outputDone: bool): Scan {
    if s == [] then
      if outputDone then Exhausted else Found([], [], true)
    else if t.IsKept(s[0]) then
      if outputDone then Found([s[0]], s[1..], false) else Found([], s, true)
    else if t.IsDropped(s[0]) then
      if outputDone then TakeRun(t, s[1..]) else Found([], s, true)
    else
      TakeRun(t, s)
  }

  // A call under drop_empty_tokens, which leaves the flag alone.
  function ScanDropping(t: Settings, s: string, outputDone: bool): Scan {
    var u := SkipDropped(t, s);
    if u == [] then
      Exhausted
    else if t.IsKept(u[0]) then
      Found([u[0]], u[1..], outputDone)
    else
      Found(Run(t, u), u[|Run(t, u)|..], outputDone)
  }

  function ScanOnce(t: Settings, s: string, outputDone: bool): Scan {
    if t.policy.KeepEmptyTokens? then ScanKeeping(t, s, outputDone) else ScanDropping(t, s, outputDone)
  }

  function Measure(s: string, outputDone: bool): nat {
    2 * |s| + if outputDone then 0 else 1
  }

  // Every successful call makes progress, although it need not advance.
  lemma ScanMakesProgress(t: Settings, s: string, outputDone: bool)
    requires ScanOnce(t, s, outputDone).Found?
    ensures var f := ScanOnce(t, s, outputDone);
            Measure(f.rest, f.outputDone) < Measure(s, outputDone) && |f.rest| <= |s|
  {
    if t.policy.DropEmptyTokens? {
      DroppingMakesProgress(t, s, outputDone);
    }
  }

  lemma DroppingMakesProgress(t: Settings, s: string, outputDone: bool)
    requires ScanDropping(t, s, outputDone).Found?
    ensures var f := ScanDropping(t, s, outputDone);
            |f.rest| < |s| && f.outputDone == outputDone
  {
    var u := SkipDropped(t, s);
    assert !t.IsDropped(u[0]);
    if !t.IsKept(u[0]) {
      assert |Run(t, u)| > 0;
    }
  }

  // Exactly the calls that announce the empty field in front of a delimiter, or at the end, leave the input
  // where it is, so that iterators before and after such a call compare equal; no two of them follow each
  // other.
  lemma CallsThatDoNotAdvance(t: Settings, s: string, outputDone: bool)
    requires ScanOnce(t, s, outputDone).Found?
    ensures var f := ScanOnce(t, s, outputDone);
            && (f.rest == s <==> t.policy.KeepEmptyTokens? && !outputDone && (s == [] || t.IsDelimiter(s[0])))
            && (f.rest == s ==> f.token == [] && f.outputDone)
  {
    if t.policy.DropEmptyTokens? {
      DroppingMakesProgress(t, s, outputDone);
    } else if s != [] && !t.IsDelimiter(s[0]) {
      assert |Run(t, s)| > 0;
    }
  }

  // The token in front of a call that does not advance was a kept delimiter, if it came from a call, and the
  // one that follows is empty: iterators that show them stand at the same place, and differ in their tokens.
  lemma SamePlaceOtherToken(t: Settings, s: string, outputDone: bool)
    requires ScanOnce(t, s, outputDone).Found?
    requires var f := ScanOnce(t, s, outputDone); ScanOnce(t, f.rest, f.outputDone).Found?
    ensures var f := ScanOnce(t, s, outputDone);
            var g := ScanOnce(t, f.rest, f.outputDone);
            && (g.rest == f.rest <==> && t.policy.KeepEmptyTokens? && |f.token| == 1 && t.IsKept(f.token[0])
                                      && (f.rest == [] || t.IsDelimiter(f.rest[0])))
            && (g.rest == f.rest ==> g.token != f.token)
  {
    var f := ScanOnce(t, s, outputDone);
    CallsThatDoNotAdvance(t, f.rest, f.outputDone);
    if t.policy.KeepEmptyTokens? {
      KeptTokenClearsFlag(t, s, outputDone);
    }
  }

  lemma KeptTokenClearsFlag(t: Settings, s: string, outputDone: bool)
    requires ScanKeeping(t, s, outputDone).Found?
    ensures var f := ScanKeeping(t, s, outputDone);
            !f.outputDone <==> |f.token| == 1 && t.IsKept(f.token[0])
  {
    var f := ScanKeeping(t, s, outputDone);
    assert f.outputDone && f.token != [] ==> f.token[0] in f.token;
  }

  // All the tokens that calls until the first false return hand out.
  function Iterate(t: Settings, s: string, outputDone: bool): seq<string>
    decreases Measure(s, outputDone)
  {
    var f := ScanOnce(t, s, outputDone);
    if f.Exhausted? then
      []
    else
      ScanMakesProgress(t, s, outputDone);
      [f.token] + Iterate(t, f.rest, f.outputDone)
  }

  // ----- The reference -----

  // How the first character adds to the fields of the rest.
  function PutFront(t: Settings, c: char, rest: seq<string>): (r: seq<string>)
    requires |rest| > 0
    ensures |r| > 0
  {
    match t.KindOf(c)
    case Kept => [[], [c]] + rest
    case Dropped => [[]] + rest
    case Plain => [[c] + rest[0]] + rest[1..]
  }

  // The fields between consecutive delimiters, each kept delimiter as an entry of its own between them.
  function Fields(t: Settings, s: string): (r: seq<string>)
    ensures |r| > 0
  {
    if s == [] then [[]] else PutFront(t, s[0], Fields(t, s[1..]))
  }

  function Count(t: Settings, s: string, kind: Kind): nat {
    if s == [] then 0 else (if t.KindOf(s[0]) == kind then 1 else 0) + Count(t, s[1..], kind)
  }

  function Undropped(t: Settings, s: string): string {
    if s == [] then [] else (if t.KindOf(s[0]).Dropped? then [] else [s[0]]) + Undropped(t, s[1..])
  }

  function Flatten(words: seq<string>): string {
    if words == [] then [] else words[0] + Flatten(words[1..])
  }

  function NonEmpty(words: seq<string>): seq<string> {
    if words == [] then [] else (if words[0] == [] then [] else [words[0]]) + NonEmpty(words[1..])
  }

  // One field more than there are delimiters, and one entry for each kept one.
  lemma {:induction false} FieldCount(t: Settings, s: string)
    ensures |Fields(t, s)| == Count(t, s, Dropped) + 2 * Count(t, s, Kept) + 1
  {
    if s != [] {
      FieldCount(t, s[1..]);
    }
  }

  // Without delimiters there is one field, the input.
  lemma {:induction false} FieldsOfRun(t: Settings, s: string)
    requires forall c :: c in s ==> t.KindOf(c).Plain?
    ensures Fields(t, s) == [s]
  {
    if s != [] {
      assert s[0] in s;
      FieldsOfRun(t, s[1..]);
      assert s == [s[0]] + s[1..];
    }
  }

  // A delimiter splits the work in two: with FieldsOfRun, these equations determine Fields.
  lemma {:induction false} FieldsSplitAtDelimiter(t: Settings, a: string, d: char, b: string)
    requires !t.KindOf(d).Plain?
    ensures Fields(t, a + [d] + b)
            == Fields(t, a) + ((if t.KindOf(d).Kept? then [[d]] else []) + Fields(t, b))
  {
    var s := a + [d] + b;
    if a == [] {
      FieldsFirstChar(t, d, b);
      assert s == [d] + b;
    } else {
      var u := a[1..] + [d] + b;
      assert s == [a[0]] + u && s[1..] == u;
      FieldsSplitAtDelimiter(t, a[1..], d, b);
      var tail := (if t.KindOf(d).Kept? then [[d]] else []) + Fields(t, b);
      assert Fields(t, u) == Fields(t, a[1..]) + tail;
      FieldsFirstChar(t, a[0], a[1..]);
      FieldsFirstChar(t, a[0], u);
      assert a == [a[0]] + a[1..];
      PutFrontConcat(t, a[0], Fields(t, a[1..]), tail);
    }
  }

  lemma FieldsFirstChar(t: Settings, c: char, s: string)
    ensures Fields(t, [c] + s) == PutFront(t, c, Fields(t, s))
  {
    assert ([c] + s)[1..] == s;
  }

  lemma PutFrontConcat(t: Settings, c: char, rest: seq<string>, tail: seq<string>)
    requires |rest| > 0
    ensures PutFront(t, c, rest + tail) == PutFront(t, c, rest) + tail
  {
    assert (rest + tail)[1..] == rest[1..] + tail;
  }

  // Nothing but the dropped delimiters is lost, and nothing is moved.
  lemma {:induction false} FieldsKeepTheText(t: Settings, s: string)
    ensures Flatten(Fields(t, s)) == Undropped(t, s)
  {
    if s != [] {
      FieldsKeepTheText(t, s[1..]);
      var rest := Fields(t, s[1..]);
      var r := Fields(t, s);
      match t.KindOf(s[0])
      case Kept =>
        assert r[0] == [] && r[1..] == [[s[0]]] + rest;
        assert r[1..][0] == [s[0]] && r[1..][1..] == rest;
      case Dropped =>
        assert r[0] == [] && r[1..] == rest;
      case Plain =>
        assert r[0] == [s[0]] + rest[0] && r[1..] == rest[1..];
        assert r[0] + Flatten(rest[1..]) == [s[0]] + (rest[0] + Flatten(rest[1..]));
    }
  }

  // An entry is free of delimiters or is one kept delimiter.
  ghost predicate IsEntry(t: Settings, word: string) {
    || (forall c :: c in word ==> t.KindOf(c).Plain?)
    || (|word| == 1 && t.KindOf(word[0]).Kept?)
  }

  lemma {:induction false} FieldsAreEntries(t: Settings, s: string)
    ensures forall word :: word in Fields(t, s) ==> IsEntry(t, word)
    ensures forall c :: c in Fields(t, s)[0] ==> t.KindOf(c).Plain?
  {
    if s != [] {
      FieldsAreEntries(t, s[1..]);
      var rest := Fields(t, s[1..]);
      assert forall word :: word in rest[1..] ==> word in rest;
    }
  }

  // ----- The calls yield the fields -----

  // The first field is the run in front; the fields behind it begin at the delimiter that ends the run.
  lemma {:induction false} RunIsFirstField(t: Settings, s: string)
    ensures Fields(t, s)[0] == Run(t, s)
    ensures Fields(t, s)[1..] == Fields(t, s[|Run(t, s)|..])[1..]
  {
    if s != [] && !t.IsDelimiter(s[0]) {
      RunIsFirstField(t, s[1..]);
      assert s[|Run(t, s)|..] == s[1..][|Run(t, s[1..])|..];
    } else {
      assert s[0..] == s;
    }
  }

  // What the calls are to yield: with the flag set, in front of a delimiter or at the end, the first field has
  // been handed out already.
  ghost function Remaining(t: Settings, s: string, outputDone: bool): seq<string> {
    if outputDone && (s == [] || t.IsDelimiter(s[0])) then Fields(t, s)[1..] else Fields(t, s)
  }

  lemma RemainingAtKept(t: Settings, s: string)
    requires t.policy.KeepEmptyTokens? && s != [] && t.IsKept(s[0])
    ensures Remaining(t, s, false) == [[]] + Remaining(t, s, true)
    ensures Remaining(t, s, true) == [[s[0]]] + Remaining(t, s[1..], false)
  {
    var whole := Fields(t, s);
    assert whole == [[], [s[0]]] + Fields(t, s[1..]);
    assert whole[1..] == [[s[0]]] + Fields(t, s[1..]);
    assert whole == [[]] + whole[1..];
  }

  lemma RemainingAtRun(t: Settings, s: string)
    requires t.policy.KeepEmptyTokens?
    ensures Fields(t, s) == [Run(t, s)] + Remaining(t, s[|Run(t, s)|..], true)
  {
    RunIsFirstField(t, s);
    var whole := Fields(t, s);
    assert whole == [whole[0]] + whole[1..];
  }

  lemma RemainingAtDropped(t: Settings, s: string)
    requires t.policy.KeepEmptyTokens? && s != [] && !t.IsKept(s[0]) && t.IsDropped(s[0])
    ensures Remaining(t, s, false) == [[]] + Remaining(t, s, true)
    ensures Remaining(t, s, true) == Fields(t, s[1..])
  {
    var whole := Fields(t, s);
    assert whole == [[]] + Fields(t, s[1..]);
    assert whole[1..] == Fields(t, s[1..]);
  }

  // One call hands out the first of what remains.
  lemma RemainingStep(t: Settings, s: string, outputDone: bool)
    requires t.policy.KeepEmptyTokens?
    ensures match ScanKeeping(t, s, outputDone)
            case Exhausted => Remaining(t, s, outputDone) == []
            case Found(token, rest, done) => Remaining(t, s, outputDone) == [token] + Remaining(t, rest, done)
  {
    if s == [] {
    } else if t.IsKept(s[0]) {
      RemainingAtKept(t, s);
    } else if t.IsDropped(s[0]) {
      RemainingAtDropped(t, s);
      RemainingAtRun(t, s[1..]);
    } else {
      RemainingAtRun(t, s);
    }
  }

  // With the flag clear, the calls yield the fields. With the flag set, they yield them without the first one
  // when the input is empty or begins with a delimiter.
  lemma {:induction false} IterateKeepingIsFields(t: Settings, s: string, outputDone: bool)
    requires t.policy.KeepEmptyTokens?
    ensures Iterate(t, s, outputDone)
            == if outputDone && (s == [] || t.IsDelimiter(s[0])) then Fields(t, s)[1..] else Fields(t, s)
    decreases Measure(s, outputDone)
  {
    RemainingStep(t, s, outputDone);
    var f := ScanOnce(t, s, outputDone);
    if f.Found? {
      ScanMakesProgress(t, s, outputDone);
      IterateKeepingIsFields(t, f.rest, f.outputDone);
      assert Iterate(t, f.rest, f.outputDone) == Remaining(t, f.rest, f.outputDone);
    }
  }

  // The tokens do not depend on the flag in front of the input unless there is a delimiter there. A set flag
  // survives reset(), which does nothing: then an empty first field is lost.
  lemma FirstFieldLost(t: Settings, s: string)
    requires t.policy.KeepEmptyTokens? && s != []
    ensures Iterate(t, s, true) == Iterate(t, s, false) <==> !t.IsDelimiter(s[0])
    ensures t.IsDelimiter(s[0]) ==> Iterate(t, s, false) == [[]] + Iterate(t, s, true)
  {
    IterateKeepingIsFields(t, s, true);
    IterateKeepingIsFields(t, s, false);
    var whole := Fields(t, s);
    if t.IsDelimiter(s[0]) {
      assert whole[0] == [];
      assert whole == [[]] + whole[1..];
      assert |whole[1..]| != |whole|;
    }
  }

  lemma {:induction false} NonEmptyConcat(a: seq<string>, b: seq<string>)
    ensures NonEmpty(a + b) == NonEmpty(a) + NonEmpty(b)
  {
    if a == [] {
      assert a + b == b;
    } else {
      assert (a + b)[0] == a[0] && (a + b)[1..] == a[1..] + b;
      NonEmptyConcat(a[1..], b);
    }
  }

  lemma {:induction false} NonEmptyFieldsSkip(t: Settings, s: string)
    requires t.policy.DropEmptyTokens?
    ensures NonEmpty(Fields(t, SkipDropped(t, s))) == NonEmpty(Fields(t, s))
  {
    if s != [] && t.IsDropped(s[0]) {
      NonEmptyFieldsSkip(t, s[1..]);
      var r := Fields(t, s);
      assert r[0] == [] && r[1..] == Fields(t, s[1..]);
    }
  }

  // What is behind a non-empty run keeps its own first, empty, field: dropping it changes nothing.
  lemma NonEmptyFieldsAfterRun(t: Settings, s: string)
    requires t.policy.DropEmptyTokens? && s != [] && !t.IsDelimiter(s[0])
    ensures NonEmpty(Fields(t, s)) == [Run(t, s)] + NonEmpty(Fields(t, s[|Run(t, s)|..]))
  {
    RunIsFirstField(t, s);
    var u := s[|Run(t, s)|..];
    var r := Fields(t, u);
    assert r[0] == [] by {
      assert u == [] || (u[0] == s[|Run(t, s)|] && t.IsDelimiter(u[0]));
    }
    assert r == [[]] + r[1..];
    assert NonEmpty(r) == NonEmpty(r[1..]);
    assert Run(t, s) != [];
  }

  lemma NonEmptyFieldsAfterKept(t: Settings, s: string)
    requires t.policy.DropEmptyTokens? && s != [] && !t.IsDropped(s[0]) && t.IsKept(s[0])
    ensures NonEmpty(Fields(t, s)) == [[s[0]]] + NonEmpty(Fields(t, s[1..]))
  {
    var r := Fields(t, s);
    assert r[0] == [] && r[1..] == [[s[0]]] + Fields(t, s[1..]);
    assert r[1..][0] == [s[0]] && r[1..][1..] == Fields(t, s[1..]);
  }

  // Dropping empty tokens yields exactly the non-empty fields and the kept delimiters, whatever the flag.
  lemma {:induction false} IterateDroppingIsNonEmptyFields(t: Settings, s: string, outputDone: bool)
    requires t.policy.DropEmptyTokens?
    ensures Iterate(t, s, outputDone) == NonEmpty(Fields(t, s))
    decreases |s|
  {
    var u := SkipDropped(t, s);
    NonEmptyFieldsSkip(t, s);
    if u != [] {
      ScanMakesProgress(t, s, outputDone);
      if t.IsKept(u[0]) {
        NonEmptyFieldsAfterKept(t, u);
        IterateDroppingIsNonEmptyFields(t, u[1..], outputDone);
      } else {
        NonEmptyFieldsAfterRun(t, u);
        IterateDroppingIsNonEmptyFields(t, u[|Run(t, u)|..], outputDone);
      }
    }
  }

  lemma {:induction false} NonEmptyWords(words: seq<string>)
    ensures forall word :: word in NonEmpty(words) <==> word in words && word != []
  {
    if words != [] {
      NonEmptyWords(words[1..]);
      assert words == [words[0]] + words[1..];
    }
  }

  // Under drop_empty_tokens no token is empty, and each is a run without delimiters or one kept delimiter.
  lemma DroppingTokensAreEntries(t: Settings, s: string, outputDone: bool, word: string)
    requires t.policy.DropEmptyTokens?
    requires word in Iterate(t, s, outputDone)
    ensures word != [] && IsEntry(t, word)
  {
    IterateDroppingIsNonEmptyFields(t, s, outputDone);
    NonEmptyWords(Fields(t, s));
    FieldsAreEntries(t, s);
  }

  // With disjoint delimiter sets the two policies disagree about empty tokens and nothing else.
  lemma {:induction false} FieldsIgnorePolicy(t: Settings, u: Settings, s: string)
    requires t.Disjoint() && u == t.(policy := u.policy)
    ensures Fields(u, s) == Fields(t, s)
  {
    if s != [] {
      FieldsIgnorePolicy(t, u, s[1..]);
      assert u.IsKept(s[0]) == t.IsKept(s[0]) && u.IsDropped(s[0]) == t.IsDropped(s[0]);
    }
  }

  lemma PoliciesDifferInEmptyTokens(t: Settings, s: string)
    requires t.Disjoint()
    ensures Iterate(t.(policy := DropEmptyTokens), s, false)
            == NonEmpty(Iterate(t.(policy := KeepEmptyTokens), s, false))
  {
    var dropping, keeping := t.(policy := DropEmptyTokens), t.(policy := KeepEmptyTokens);
    FieldsIgnorePolicy(t, dropping, s);
    FieldsIgnorePolicy(t, keeping, s);
    IterateDroppingIsNonEmptyFields(dropping, s, false);
    IterateKeepingIsFields(keeping, s, false);
  }

  // ----- In terms of the characters given -----

  // What a character counts as, by the strings given to the constructor or, where one is empty, by the
  // classification that stands in for it.
  lemma KindByMembership(t: Settings, c: char)
    ensures var keeps := if |t.kept| > 0 then c in t.kept else t.useIspunct && t.ispunct(c);
            var drops := if |t.dropped| > 0 then c in t.dropped else t.useIsspace && t.isspace(c);
            && (t.KindOf(c).Plain? <==> !keeps && !drops)
            && (t.KindOf(c).Kept? <==> keeps && (drops ==> t.policy.KeepEmptyTokens?))
            && (t.KindOf(c).Dropped? <==> drops && (keeps ==> t.policy.DropEmptyTokens?))
  {
  }

  // What iterating a separator is to yield.
  ghost predicate IsSplit(t: Settings, s: string, tokens: seq<string>) {
    tokens == if s == [] then []
              else if t.policy.KeepEmptyTokens? then Fields(t, s)
              else NonEmpty(Fields(t, s))
  }

  lemma SplitIntoEntries(t: Settings, s: string, tokens: seq<string>)
    requires IsSplit(t, s, tokens)
    ensures forall word :: word in tokens ==> IsEntry(t, word)
  {
    FieldsAreEntries(t, s);
    NonEmptyWords(Fields(t, s));
  }

  // A character that is dropped or kept stands in no token but one that is it, and then it is kept.
  lemma DelimitersStandAlone(t: Settings, s: string, tokens: seq<string>, word: string, c: char)
    requires IsSplit(t, s, tokens) && word in tokens && c in word && !t.KindOf(c).Plain?
    ensures word == [c] && t.KindOf(c).Kept?
  {
    SplitIntoEntries(t, s, tokens);
    assert IsEntry(t, word);
  }

  lemma {:induction false} FlattenNonEmpty(words: seq<string>)
    ensures Flatten(NonEmpty(words)) == Flatten(words)
  {
    if words != [] {
      FlattenNonEmpty(words[1..]);
      if words[0] == [] {
        assert NonEmpty(words) == NonEmpty(words[1..]);
        assert [] + Flatten(words[1..]) == Flatten(words[1..]);
      } else {
        assert NonEmpty(words) == [words[0]] + NonEmpty(words[1..]);
        assert NonEmpty(words)[1..] == NonEmpty(words[1..]);
      }
    }
  }

  lemma SplitKeepsTheText(t: Settings, s: string, tokens: seq<string>)
    requires IsSplit(t, s, tokens)
    ensures Flatten(tokens) == Undropped(t, s)
  {
    FieldsKeepTheText(t, s);
    FlattenNonEmpty(Fields(t, s));
  }

  // The text without the characters that satisfy p.
  function Without(s: string, p: char -> bool): string {
    if s == [] then [] else (if p(s[0]) then [] else [s[0]]) + Without(s[1..], p)
  }

  lemma {:induction false} UndroppedIsWithout(t: Settings, s: string, p: char -> bool)
    requires forall c :: p(c) <==> t.KindOf(c).Dropped?
    ensures Undropped(t, s) == Without(s, p)
  {
    if s != [] {
      UndroppedIsWithout(t, s[1..], p);
    }
  }

  // With delimiters given as strings that have nothing in common: no token holds a dropped character, a kept one
  // is a token of its own, and the tokens in a row are the text without the dropped characters.
  lemma SplitByStrings(t: Settings, s: string, tokens: seq<string>)
    requires IsSplit(t, s, tokens) && |t.dropped| > 0 && (|t.kept| > 0 || !t.useIspunct)
    requires forall c :: c in t.dropped ==> c !in t.kept
    ensures forall word, c :: word in tokens && c in word ==> c !in t.dropped && (c in t.kept ==> word == [c])
    ensures Flatten(tokens) == Without(s, c => c in t.dropped)
  {
    forall word, c | word in tokens && c in word
      ensures c !in t.dropped && (c in t.kept ==> word == [c])
    {
      if c in t.dropped || c in t.kept {
        KindByMembership(t, c);
        DelimitersStandAlone(t, s, tokens, word, c);
      }
    }
    SplitKeepsTheText(t, s, tokens);
    forall c ensures c in t.dropped <==> t.KindOf(c).Dropped? {
      KindByMembership(t, c);
    }
    UndroppedIsWithout(t, s, c => c in t.dropped);
  }

  // The default separator: the same of what isspace and ispunct say, if they have nothing in common.
  lemma SplitByClasses(t: Settings, s: string, tokens: seq<string>)
    requires IsSplit(t, s, tokens) && t.dropped == [] && t.kept == [] && t.useIspunct && t.useIsspace
    requires forall c :: !(t.ispunct(c) && t.isspace(c))
    ensures forall word, c :: word in tokens && c in word ==> !t.isspace(c) && (t.ispunct(c) ==> word == [c])
    ensures Flatten(tokens) == Without(s, c => t.isspace(c))
  {
    forall word, c | word in tokens && c in word
      ensures !t.isspace(c) && (t.ispunct(c) ==> word == [c])
    {
      if t.isspace(c) || t.ispunct(c) {
        KindByMembership(t, c);
        DelimitersStandAlone(t, s, tokens, word, c);
      }
    }
    SplitKeepsTheText(t, s, tokens);
    forall c ensures t.isspace(c) <==> t.KindOf(c).Dropped? {
      KindByMembership(t, c);
    }
    UndroppedIsWithout(t, s, c => t.isspace(c));
  }

  // Whether or not the sets have something in common.
  lemma SplitStandsAlone(t: Settings, s: string, tokens: seq<string>)
    requires IsSplit(t, s, tokens)
    ensures |t.dropped| > 0 ==> forall word, c :: word in tokens && c in word && c in t.dropped ==> word == [c]
    ensures |t.kept| > 0 ==> forall word, c :: word in tokens && c in word && c in t.kept ==> word == [c]
  {
    forall word, c | word in tokens && c in word
      ensures |t.dropped| > 0 && c in t.dropped ==> word == [c]
      ensures |t.kept| > 0 && c in t.kept ==> word == [c]
    {
      KindByMembership(t, c);
      if !t.KindOf(c).Plain? {
        DelimitersStandAlone(t, s, tokens, word, c);
      }
    }
  }

  // ----- The class -----

  class CharSeparator {
    const settings: Settings
    var outputDone: bool

    constructor (t: Settings)
      ensures settings == t && !outputDone
    {
      settings := t;
      outputDone := false;
    }

    // reset() has an empty body: the flag stays as it is.
    method Reset()
    {
    }

    // The function call operator on the characters input[from..]. For a forward iterator the token is assigned
    // once, from where it started to where the scan stopped; a single-pass iterator collects it a character
    // at a time. was is what the caller's token held before.
    method Next(input: string, from: nat, was: string, singlePass: bool)
      returns (ok: bool, next: nat, tok: string)
      requires from <= |input|
      modifies this`outputDone
      ensures from <= next <= |input|
      ensures match ScanOnce(settings, input[from..], old(outputDone))
              case Exhausted =>
                !ok && outputDone == old(outputDone) && next == |input| && tok == (if singlePass then [] else was)
              case Found(t, rest, done) => ok && tok == t && input[next..] == rest && outputDone == done
    {
      tok := if singlePass then [] else was;
      if settings.policy == DropEmptyTokens {
        next := PassDropped(input, from);
        ok, next, tok := NextDropping(input, next, tok, singlePass);
      } else {
        ok, next, tok := NextKeeping(input, from, tok, singlePass);
      }
    }

    // The loop that skips dropped delimiters.
    method PassDropped(input: string, from: nat) returns (next: nat)
      requires from <= |input|
      ensures from <= next <= |input|
      ensures SkipDropped(settings, input[from..]) == input[next..]
      ensures next < |input| ==> !settings.IsDropped(input[next])
    {
      next := from;
      while next != |input| && settings.IsDropped(input[next])
        invariant from <= next <= |input|
        invariant SkipDropped(settings, input[from..]) == SkipDropped(settings, input[next..])
        decreases |input| - next
      {
        assert input[next..][1..] == input[next + 1..];
        next := next + 1;
      }
    }

    // The branch for drop_empty_tokens, behind the dropped delimiters.
    method NextDropping(input: string, from: nat, was: string, singlePass: bool)
      returns (ok: bool, next: nat, tok: string)
      requires from <= |input| && (from < |input| ==> !settings.IsDropped(input[from]))
      requires singlePass ==> was == []
      ensures from <= next <= |input|
      ensures match ScanDropping(settings, input[from..], outputDone)
              case Exhausted => !ok && next == |input| && tok == was
              case Found(t, rest, done) => ok && tok == t && input[next..] == rest
    {
      next, tok := from, was;
      var start := next;
      if next == |input| {
        return false, next, tok;
      }
      if settings.IsKept(input[next]) {
        tok := if singlePass then tok + [input[next]] else tok;
        next := next + 1;
        assert input[from..][1..] == input[next..];
        assert input[from..next] == [input[from]];
      } else {
        next, tok := AppendRun(input, next, tok, singlePass);
      }
      tok := if singlePass then tok else input[start..next];
      return true, next, tok;
    }

    // The branch for keep_empty_tokens, which begins where the last call stopped.
    method NextKeeping(input: string, from: nat, was: string, singlePass: bool)
      returns (ok: bool, next: nat, tok: string)
      requires from <= |input|
      requires singlePass ==> was == []
      modifies this`outputDone
      ensures from <= next <= |input|
      ensures match ScanKeeping(settings, input[from..], old(outputDone))
              case Exhausted => !ok && outputDone == old(outputDone) && next == |input| && tok == was
              case Found(t, rest, done) => ok && tok == t && input[next..] == rest && outputDone == done
    {
      next, tok := from, was;
      var start := next;
      if next == |input| {
        if outputDone == false {
          outputDone := true;
          tok := if singlePass then tok else input[start..next];
          return true, next, tok;
        } else {
          return false, next, tok;
        }
      }
      if settings.IsKept(input[next]) {
        if outputDone == false {
          outputDone := true;
        } else {
          tok := if singlePass then tok + [input[next]] else tok;
          next := next + 1;
          outputDone := false;
          assert input[from..][1..] == input[next..];
          assert input[from..next] == [input[from]];
        }
      } else if outputDone == false && settings.IsDropped(input[next]) {
        outputDone := true;
      } else {
        if settings.IsDropped(input[next]) {
          next := next + 1;
          start := next;
          assert input[from..][1..] == input[start..];
        }
        next, tok := AppendRun(input, next, tok, singlePass);
        outputDone := true;
      }
      tok := if singlePass then tok else input[start..next];
      return true, next, tok;
    }

    // The inner loop, which stops at the next delimiter or at the end.
    method AppendRun(input: string, from: nat, was: string, singlePass: bool) returns (next: nat, tok: string)
      requires from <= |input|
      ensures from <= next <= |input|
      ensures Run(settings, input[from..]) == input[from..next]
      ensures input[from..][|Run(settings, input[from..])|..] == input[next..]
      ensures tok == if singlePass then was + input[from..next] else was
    {
      next, tok := from, was;
      while next != |input| && !settings.IsDropped(input[next]) && !settings.IsKept(input[next])
        invariant from <= next <= |input|
        invariant |Run(settings, input[from..])| == next - from + |Run(settings, input[next..])|
        invariant tok == if singlePass then was + input[from..next] else was
        decreases |input| - next
      {
        RunAt(settings, input, next);
        SliceSnoc(input, from, next, was);
        tok := if singlePass then tok + [input[next]] else tok;
        next := next + 1;
      }
      RunAt(settings, input, next);
      RunIsSlice(settings, input, from, next);
    }
  }
}
