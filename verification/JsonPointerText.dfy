/** The text form of a JSON Pointer: escaping, printing and splitting (RFC 6901, sections 3 and 4). */
module JsonPointerText {
  import opened Bytes
  import opened Wrappers

  // ---------- replace_substring ----------

  /** s with every occurrence of f, found from left to right, replaced by t. */
  function Replaced(s: Str, f: Str, t: Str): Str
    requires f != []
    decreases |s|
  {
    if |s| < |f| then s
    else if s[..|f|] == f then t + Replaced(s[|f|..], f, t)
    else [s[0]] + Replaced(s[1..], f, t)
  }

  ghost predicate OccursAt(s: Str, f: Str, i: int) {
    0 <= i <= |s| - |f| && s[i..i + |f|] == f
  }

  const NPOS: int := -1

  /** pos is where f occurs first at or after from, or NPOS. */
  ghost predicate FirstFound(s: Str, f: Str, from: nat, pos: int) {
    if pos == NPOS then forall i :: from <= i ==> !OccursAt(s, f, i)
    else from <= pos && OccursAt(s, f, pos) && forall i :: from <= i < pos ==> !OccursAt(s, f, i)
  }

  /** std::string::find. */
  method Find(s: Str, f: Str, from: nat) returns (pos: int)
    requires from <= |s| && f != []
    ensures FirstFound(s, f, from, pos)
  {
    pos := from;
    while pos + |f| <= |s|
      invariant from <= pos && forall i :: from <= i < pos ==> !OccursAt(s, f, i)
    {
      if s[pos..pos + |f|] == f { return; }
      pos := pos + 1;
    }
    pos := NPOS;
  }

  lemma FirstIsSkipped(s: Str, f: Str, t: Str)
    requires 0 < |f| <= |s| && !OccursAt(s, f, 0)
    ensures Replaced(s, f, t) == [s[0]] + Replaced(s[1..], f, t)
  {
    assert s[0..|f|] == s[..|f|];
  }

  lemma {:induction false} ReplacedSkips(s: Str, f: Str, t: Str, n: nat)
    requires f != [] && n <= |s| && forall i :: 0 <= i < n ==> !OccursAt(s, f, i)
    ensures Replaced(s, f, t) == s[..n] + Replaced(s[n..], f, t)
  {
    if n == 0 {
      assert s[0..] == s;
    } else if |s| < |f| {
      assert Replaced(s[n..], f, t) == s[n..];
    } else {
      hide OccursAt;
      FirstIsSkipped(s, f, t);
      OccurrencesShift(s, f, 1);
      forall i | 0 <= i < n - 1 ensures !OccursAt(s[1..], f, i) { assert !OccursAt(s, f, 1 + i); }
      ReplacedSkips(s[1..], f, t, n - 1);
      assert s[1..][n - 1..] == s[n..];
      assert [s[0]] + s[1..][..n - 1] == s[..n];
    }
  }

  method ReplaceSubstring(text: Str, f: Str, t: Str) returns (s: Str)
    requires f != []
    ensures s == Replaced(text, f, t)
  {
    s := text;
    var pos := Find(s, f, 0);
    ghost var from := 0;
    assert s[0..] == s;
    while pos != NPOS
      invariant from <= |s|
      invariant s[..from] + Replaced(s[from..], f, t) == Replaced(text, f, t)
      invariant FirstFound(s, f, from, pos)
      decreases |s| - from, if pos == NPOS then 0 else 1
    {
      ghost var before := s;
      NextReplacement(s, f, t, from, pos);
      s := s[..pos] + t + s[pos + |f|..];
      from := pos + |t|;
      assert s[..from] == before[..pos] + t && s[from..] == before[pos + |f|..];
      pos := Find(s, f, pos + |t|);
    }
    NoOccurrenceLeft(s, f, t, from);
    assert s == s[..from] + s[from..];
  }

  lemma NextReplacement(s: Str, f: Str, t: Str, from: nat, pos: nat)
    requires f != [] && FirstFound(s, f, from, pos)
    ensures s[..from] + Replaced(s[from..], f, t) == s[..pos] + t + Replaced(s[pos + |f|..], f, t)
  {
    var rest := Replaced(s[pos + |f|..], f, t);
    OccurrencesShift(s, f, from);
    ReplacedSkips(s[from..], f, t, pos - from);
    JoinSlices(s, from, pos, t + rest);
    ReplacedHere(s, f, t, pos);
    Reassociate(s[..pos], t, rest);
  }

  lemma ReplacedHere(s: Str, f: Str, t: Str, pos: nat)
    requires f != [] && OccursAt(s, f, pos)
    ensures Replaced(s[pos..], f, t) == t + Replaced(s[pos + |f|..], f, t)
  {
    assert s[pos..][..|f|] == f && s[pos..][|f|..] == s[pos + |f|..];
  }

  lemma NoOccurrenceLeft(s: Str, f: Str, t: Str, from: nat)
    requires f != [] && from <= |s| && forall i :: from <= i ==> !OccursAt(s, f, i)
    ensures Replaced(s[from..], f, t) == s[from..]
  {
    OccurrencesShift(s, f, from);
    ReplacedSkips(s[from..], f, t, |s| - from);
  }

  lemma OccurrencesShift(s: Str, f: Str, from: nat)
    requires from <= |s|
    ensures forall i :: 0 <= i ==> OccursAt(s[from..], f, i) == OccursAt(s, f, from + i)
  {
    forall i | 0 <= i ensures OccursAt(s[from..], f, i) == OccursAt(s, f, from + i) {
      if i + |f| <= |s| - from { assert s[from..][i..i + |f|] == s[from + i..from + i + |f|]; }
    }
  }

  lemma SingleByteOccurs(s: Str, c: byte)
    ensures forall i :: OccursAt(s, [c], i) <==> 0 <= i < |s| && s[i] == c
  {
    forall i ensures OccursAt(s, [c], i) <==> 0 <= i < |s| && s[i] == c {
      if 0 <= i < |s| { assert s[i..i + 1] == [s[i]]; }
    }
  }

  // ---------- escape and unescape ----------

  const TILDE_ZERO: Str := [TILDE, ZERO]
  const TILDE_ONE: Str := [TILDE, ONE]

  /** The token with '~' written "~0" and '/' written "~1". */
  function Escaped(s: Str): (e: Str)
    ensures SLASH !in e
    ensures s == [] <==> e == []
  {
    if s == [] then []
    else (if s[0] == TILDE then TILDE_ZERO else if s[0] == SLASH then TILDE_ONE else [s[0]]) + Escaped(s[1..])
  }

  /** Every '~' starts one of the two escapes. */
  predicate WellEscaped(s: Str) {
    forall p :: 0 <= p < |s| && s[p] == TILDE ==> p + 1 < |s| && (s[p + 1] == ZERO || s[p + 1] == ONE)
  }

  function Unescaped(s: Str): Str
    requires WellEscaped(s)
    decreases |s|
  {
    if s == [] then []
    else if s[0] == TILDE then [if s[1] == ZERO then TILDE else SLASH] + Unescaped(s[2..])
    else [s[0]] + Unescaped(s[1..])
  }

  method Escape(token: Str) returns (s: Str)
    ensures s == Escaped(token)
  {
    s := ReplaceSubstring(token, [TILDE], TILDE_ZERO);
    s := ReplaceSubstring(s, [SLASH], TILDE_ONE);
    TwoPassesEscape(token);
  }

  method Unescape(token: Str) returns (s: Str)
    requires WellEscaped(token)
    ensures s == Unescaped(token)
  {
    s := ReplaceSubstring(token, TILDE_ONE, [SLASH]);
    s := ReplaceSubstring(s, TILDE_ZERO, [TILDE]);
    TwoPassesUnescape(token);
  }

  /** Replacing '~' first is what makes two passes over the whole text an encoding byte by byte. */
  lemma {:induction false} TwoPassesEscape(s: Str)
    ensures Replaced(Replaced(s, [TILDE], TILDE_ZERO), [SLASH], TILDE_ONE) == Escaped(s)
  {
    hide Replaced;
    if s == [] {
      NothingReplaced(s);
    } else {
      TwoPassesEscape(s[1..]);
      assert [s[0]] + s[1..] == s;
      if s[0] == TILDE { TildeFirst(s[1..]); } else { OtherFirst(s[0], s[1..]); }
    }
  }

  lemma NothingReplaced(s: Str)
    requires s == []
    ensures Replaced(Replaced(s, [TILDE], TILDE_ZERO), [SLASH], TILDE_ONE) == []
  {
  }

  lemma TildeFirst(s: Str)
    ensures Replaced(Replaced([TILDE] + s, [TILDE], TILDE_ZERO), [SLASH], TILDE_ONE)
      == TILDE_ZERO + Replaced(Replaced(s, [TILDE], TILDE_ZERO), [SLASH], TILDE_ONE)
  {
    hide Replaced;
    var rest := Replaced(s, [TILDE], TILDE_ZERO);
    ReplacedByteFirst(TILDE, s, TILDE, TILDE_ZERO);
    assert TILDE_ZERO == [TILDE] + [ZERO];
    Reassociate([TILDE], [ZERO], rest);
    ReplacedByteFirst(TILDE, [ZERO] + rest, SLASH, TILDE_ONE);
    ReplacedByteFirst(ZERO, rest, SLASH, TILDE_ONE);
    Reassociate([TILDE], [ZERO], Replaced(rest, [SLASH], TILDE_ONE));
  }

  lemma OtherFirst(c: byte, s: Str)
    requires c != TILDE
    ensures Replaced(Replaced([c] + s, [TILDE], TILDE_ZERO), [SLASH], TILDE_ONE)
      == (if c == SLASH then TILDE_ONE else [c]) + Replaced(Replaced(s, [TILDE], TILDE_ZERO), [SLASH], TILDE_ONE)
  {
    hide Replaced;
    ReplacedByteFirst(c, s, TILDE, TILDE_ZERO);
    ReplacedByteFirst(c, Replaced(s, [TILDE], TILDE_ZERO), SLASH, TILDE_ONE);
  }

  lemma ReplacedByteFirst(c: byte, rest: Str, f: byte, t: Str)
    ensures Replaced([c] + rest, [f], t) == (if c == f then t else [c]) + Replaced(rest, [f], t)
  {
    var s := [c] + rest;
    assert s[..1] == [c] && s[1..] == rest;
  }

  /** Undoing "~1" before "~0" keeps "~01" from turning into a slash. */
  lemma {:induction false} TwoPassesUnescape(s: Str)
    requires WellEscaped(s)
    ensures Replaced(Replaced(s, TILDE_ONE, [SLASH]), TILDE_ZERO, [TILDE]) == Unescaped(s)
    decreases |s|
  {
    if s == [] {
    } else if s[0] == TILDE && s[1] == ZERO {
      TwoPassesUnescape(s[2..]);
      var rest := Replaced(s[2..], TILDE_ONE, [SLASH]);
      assert s[1..][1..] == s[2..] && s[..2][1] == ZERO && |s[1..]| >= 1;
      assert |s[1..]| >= 2 ==> s[1..][..2][0] == ZERO;
      assert Replaced(s[1..], TILDE_ONE, [SLASH]) == [ZERO] + rest;
      var out := [TILDE] + ([ZERO] + rest);
      assert out[..2] == TILDE_ZERO && out[2..] == rest;
    } else if s[0] == TILDE {
      TwoPassesUnescape(s[2..]);
      assert s[..2] == TILDE_ONE;
      KeepsFirst(SLASH, Replaced(s[2..], TILDE_ONE, [SLASH]), TILDE_ZERO, [TILDE]);
    } else {
      TwoPassesUnescape(s[1..]);
      KeepsFirst(s[0], s[1..], TILDE_ONE, [SLASH]);
      assert [s[0]] + s[1..] == s;
      KeepsFirst(s[0], Replaced(s[1..], TILDE_ONE, [SLASH]), TILDE_ZERO, [TILDE]);
    }
  }

  lemma KeepsFirst(c: byte, rest: Str, f: Str, t: Str)
    requires |f| == 2 && f[0] != c
    ensures Replaced([c] + rest, f, t) == [c] + Replaced(rest, f, t)
  {
    var s := [c] + rest;
    assert s[1..] == rest;
    if |s| >= 2 { assert s[..2][0] == c; }
  }

  lemma {:induction false} UnescapeInvertsEscape(s: Str)
    ensures WellEscaped(Escaped(s)) && Unescaped(Escaped(s)) == s
  {
    if s != [] {
      UnescapeInvertsEscape(s[1..]);
      var rest := Escaped(s[1..]);
      var e := Escaped(s);
      if s[0] == TILDE || s[0] == SLASH {
        assert e[2..] == rest;
        assert forall p :: 2 <= p < |e| ==> e[p] == rest[p - 2];
      } else {
        assert e[1..] == rest;
        assert forall p :: 1 <= p < |e| ==> e[p] == rest[p - 1];
      }
    }
  }

  lemma {:induction false} EscapeInvertsUnescape(s: Str)
    requires WellEscaped(s) && SLASH !in s
    ensures Escaped(Unescaped(s)) == s
    decreases |s|
  {
    if s == [] {
    } else if s[0] == TILDE {
      EscapeInvertsUnescape(s[2..]);
      assert s == [s[0], s[1]] + s[2..];
      assert Unescaped(s)[1..] == Unescaped(s[2..]);
    } else {
      EscapeInvertsUnescape(s[1..]);
      assert Unescaped(s)[1..] == Unescaped(s[1..]);
    }
  }

  // ---------- to_string ----------

  /** The accumulation to_string performs, starting from the text already produced. */
  function Accumulate(text: Str, tokens: seq<Str>): Str
    decreases |tokens|
  {
    if tokens == [] then text else Accumulate(text + [SLASH] + Escaped(tokens[0]), tokens[1..])
  }

  function ToString(tokens: seq<Str>): Str {
    Accumulate([], tokens)
  }

  /** The same text, read from the front: each token in escaped form behind a slash. */
  function Path(tokens: seq<Str>): Str {
    if tokens == [] then [] else [SLASH] + Escaped(tokens[0]) + Path(tokens[1..])
  }

  lemma {:induction false} AccumulateAppends(text: Str, tokens: seq<Str>)
    ensures Accumulate(text, tokens) == text + Path(tokens)
    decreases |tokens|
  {
    if tokens != [] {
      AccumulateAppends(text + [SLASH] + Escaped(tokens[0]), tokens[1..]);
      assert text + [SLASH] + Escaped(tokens[0]) + Path(tokens[1..]) == text + Path(tokens);
    }
  }

  lemma ToStringIsPath(tokens: seq<Str>)
    ensures ToString(tokens) == Path(tokens)
  {
    AccumulateAppends([], tokens);
  }

  // ---------- split ----------

  /** The texts between slashes. */
  function Fields(s: Str): (fields: seq<Str>)
    ensures fields != []
    decreases |s|
  {
    if SLASH !in s then [s] else
      var i := FirstSlash(s);
      [s[..i]] + Fields(s[i + 1..])
  }

  function FirstSlash(s: Str): (i: nat)
    requires SLASH in s
    ensures i < |s| && s[i] == SLASH && forall k :: 0 <= k < i ==> s[k] != SLASH
  {
    if s[0] == SLASH then 0 else 1 + FirstSlash(s[1..])
  }

  function Tokens(fields: seq<Str>): (r: Result<seq<Str>>)
    ensures r.Err? ==> r == Err(DomainError)
  {
    if fields == [] then Ok([])
    else if !WellEscaped(fields[0]) then Err(DomainError)
    else
      var rest :- Tokens(fields[1..]);
      Ok([Unescaped(fields[0])] + rest)
  }

  /** json_pointer(text): the reference tokens of a pointer. */
  function Split(s: Str): Result<seq<Str>> {
    if s == [] then Ok([])
    else if s[0] != SLASH then Err(DomainError)
    else Tokens(Fields(s[1..]))
  }

  lemma FieldsAt(s: Str, i: nat)
    requires i < |s| && s[i] == SLASH && forall k :: 0 <= k < i ==> s[k] != SLASH
    ensures Fields(s) == [s[..i]] + Fields(s[i + 1..])
  {
    assert FirstSlash(s) == i;
  }

  method SplitPointer(text: Str) returns (r: Result<seq<Str>>)
    ensures r == Split(text)
  {
    hide Tokens, Fields, WellEscaped, Unescaped;
    if text == [] { return Ok([]); }
    if text[0] != SLASH { return Err(DomainError); }
    var tokens: seq<Str> := [];
    var slash := Find(text, [SLASH], 1);
    var start := 1;
    PrependedNothing(Tokens(Fields(text[1..])));
    while start != 0
      invariant 0 <= start <= |text|
      invariant start != 0 ==> FirstFound(text, [SLASH], start, slash)
      invariant start == 0 ==> Split(text) == Ok(tokens)
      invariant start != 0 ==> Split(text) == Prepended(tokens, Tokens(Fields(text[start..])))
      decreases if start == 0 then 0 else 1 + |text| - start
    {
      var end := if slash == NPOS then |text| else slash;
      var field := text[start..end];
      SplitStep(text, start, slash, tokens);
      var ok := CheckEscapes(field);
      if !ok { return Err(DomainError); }
      var token := Unescape(field);
      tokens := tokens + [token];
      start := slash + 1;
      if start != 0 { slash := Find(text, [SLASH], start); }
    }
    return Ok(tokens);
  }

  function Prepended(done: seq<Str>, rest: Result<seq<Str>>): Result<seq<Str>> {
    if rest.Ok? then Ok(done + rest.value) else rest
  }

  /** One round of the loop: the token that ends at `slash` (or at the end of the text) moves to the result. */
  lemma SplitStep(text: Str, start: nat, slash: int, done: seq<Str>)
    requires start <= |text|
    requires FirstFound(text, [SLASH], start, slash)
    requires Split(text) == Prepended(done, Tokens(Fields(text[start..])))
    ensures var field := text[start..if slash == NPOS then |text| else slash];
      if !WellEscaped(field) then Split(text) == Err(DomainError)
      else if slash == NPOS then Split(text) == Ok(done + [Unescaped(field)])
      else Split(text) == Prepended(done + [Unescaped(field)], Tokens(Fields(text[slash + 1..])))
  {
    hide Tokens, Fields, WellEscaped, Unescaped;
    var field := text[start..if slash == NPOS then |text| else slash];
    FieldsFrom(text, start, slash);
    if slash == NPOS {
      assert [field] + [] == [field];
      TokensCons(field, []);
      NoTokens();
      if WellEscaped(field) { assert [Unescaped(field)] + [] == [Unescaped(field)]; }
    } else {
      var rest := Fields(text[slash + 1..]);
      TokensCons(field, rest);
      if WellEscaped(field) { PrependedSnoc(done, Unescaped(field), Tokens(rest)); }
    }
  }

  lemma NoTokens()
    ensures Tokens([]) == Ok([])
  {
  }

  lemma PrependedNothing(rest: Result<seq<Str>>)
    ensures Prepended([], rest) == rest
  {
    if rest.Ok? { assert [] + rest.value == rest.value; }
  }

  lemma PrependedSnoc(done: seq<Str>, token: Str, rest: Result<seq<Str>>)
    ensures Prepended(done + [token], rest) == Prepended(done, if rest.Ok? then Ok([token] + rest.value) else rest)
  {
    if rest.Ok? { assert done + [token] + rest.value == done + ([token] + rest.value); }
  }

  /** What the text between `start` and the next slash contributes to the list of fields. */
  lemma FieldsFrom(text: Str, start: nat, slash: int)
    requires start <= |text|
    requires FirstFound(text, [SLASH], start, slash)
    ensures slash == NPOS ==> Fields(text[start..]) == [text[start..|text|]]
    ensures slash != NPOS ==> Fields(text[start..]) == [text[start..slash]] + Fields(text[slash + 1..])
  {
    SingleByteOccurs(text, SLASH);
    var s := text[start..];
    if slash == NPOS {
      assert text[start..|text|] == s;
      assert SLASH !in s;
    } else {
      var i := slash - start;
      assert s[..i] == text[start..slash] && s[i + 1..] == text[slash + 1..];
      FieldsAt(s, i);
    }
  }

  /** The loop over the '~' characters of a token. */
  method CheckEscapes(token: Str) returns (ok: bool)
    ensures ok == WellEscaped(token)
  {
    SingleByteOccurs(token, TILDE);
    var pos := Find(token, [TILDE], 0);
    ghost var from := 0;
    while pos != NPOS
      invariant 0 <= from <= |token|
      invariant forall p :: 0 <= p < from && token[p] == TILDE ==>
        p + 1 < |token| && (token[p + 1] == ZERO || token[p + 1] == ONE)
      invariant FirstFound(token, [TILDE], from, pos)
      decreases |token| - from, if pos == NPOS then 0 else 1
    {
      if pos == |token| - 1 || (token[pos + 1] != ZERO && token[pos + 1] != ONE) { return false; }
      from := pos + 1;
      pos := Find(token, [TILDE], pos + 1);
    }
    return true;
  }

  // ---------- printing and splitting are inverse ----------

  lemma FieldsBehind(head: Str, rest: Str)
    requires SLASH !in head && rest != [] && rest[0] == SLASH
    ensures Fields(head + rest) == [head] + Fields(rest[1..])
  {
    assert head + rest == head + [SLASH] + rest[1..];
    FieldsPrepend(head, rest[1..]);
  }

  lemma FieldsPrepend(head: Str, rest: Str)
    requires SLASH !in head
    ensures Fields(head + [SLASH] + rest) == [head] + Fields(rest)
  {
    var s := head + [SLASH] + rest;
    assert s[..|head|] == head && s[|head| + 1..] == rest;
    FieldsAt(s, |head|);
  }

  lemma {:induction false} SplitPath(tokens: seq<Str>)
    ensures Split(Path(tokens)) == Ok(tokens)
  {
    if tokens != [] {
      var e := Escaped(tokens[0]);
      UnescapeInvertsEscape(tokens[0]);
      SplitPath(tokens[1..]);
      FieldsOfPath(tokens);
      var fields := Fields(Path(tokens)[1..]);
      assert fields[0] == e && Tokens(fields[1..]) == Ok(tokens[1..]);
      assert tokens == [tokens[0]] + tokens[1..];
    }
  }

  lemma FieldsOfPath(tokens: seq<Str>)
    requires tokens != []
    ensures var fields := Fields(Path(tokens)[1..]);
      fields == [Escaped(tokens[0])] + if tokens[1..] == [] then [] else Fields(Path(tokens[1..])[1..])
  {
    var (e, rest) := (Escaped(tokens[0]), Path(tokens[1..]));
    DropFirst(SLASH, e, rest);
    if tokens[1..] == [] {
      assert e + rest == e;
    } else {
      DropFirst(SLASH, Escaped(tokens[1..][0]), Path(tokens[1..][1..]));
      FieldsBehind(e, rest);
    }
  }

  /** split(to_string(tokens)) == tokens, for every list of tokens. */
  lemma SplitInvertsToString(tokens: seq<Str>)
    ensures Split(ToString(tokens)) == Ok(tokens)
  {
    ToStringIsPath(tokens);
    SplitPath(tokens);
  }

  lemma TokensCons(head: Str, fields: seq<Str>)
    ensures Tokens([head] + fields) ==
      if !WellEscaped(head) || Tokens(fields).Err? then Err(DomainError)
      else Ok([Unescaped(head)] + Tokens(fields).value)
  {
    hide WellEscaped, Unescaped;
    assert ([head] + fields)[1..] == fields;
  }

  lemma LastField(s: Str)
    requires SLASH !in s
    ensures Tokens(Fields(s)).Ok? <==> WellEscaped(s)
    ensures Tokens(Fields(s)).Ok? ==> Path(Tokens(Fields(s)).value) == [SLASH] + s
  {
    assert Fields(s) == [s] + [];
    TokensCons(s, []);
    if WellEscaped(s) {
      EscapeInvertsUnescape(s);
      PathCons(Unescaped(s), []);
      assert [Unescaped(s)] + [] == [Unescaped(s)] && [SLASH] + s + [] == [SLASH] + s;
    }
  }

  lemma {:induction false} FieldsRejoin(s: Str)
    ensures Tokens(Fields(s)).Ok? <==> WellEscaped(s)
    ensures Tokens(Fields(s)).Ok? ==> Path(Tokens(Fields(s)).value) == [SLASH] + s
    decreases |s|
  {
    hide Fields, Tokens, WellEscaped, Path, Unescaped;
    if SLASH !in s {
      LastField(s);
    } else {
      var i := FirstSlash(s);
      var (head, rest) := (s[..i], s[i + 1..]);
      FieldsRejoin(rest);
      FieldsAt(s, i);
      TokensCons(head, Fields(rest));
      assert s == head + [SLASH] + rest;
      WellEscapedJoin(head, rest);
      if WellEscaped(s) { RejoinFirst(head, rest, Tokens(Fields(rest)).value); }
    }
  }

  lemma RejoinFirst(head: Str, rest: Str, tokens: seq<Str>)
    requires SLASH !in head && WellEscaped(head)
    requires Path(tokens) == [SLASH] + rest
    ensures Path([Unescaped(head)] + tokens) == [SLASH] + (head + [SLASH] + rest)
  {
    EscapeInvertsUnescape(head);
    PathCons(Unescaped(head), tokens);
    Reassociate([SLASH], head, [SLASH] + rest);
    Reassociate(head, [SLASH], rest);
  }

  lemma PathCons(token: Str, tokens: seq<Str>)
    ensures Path([token] + tokens) == [SLASH] + Escaped(token) + Path(tokens)
  {
    assert ([token] + tokens)[1..] == tokens;
  }

  lemma WellEscapedJoin(head: Str, rest: Str)
    ensures WellEscaped(head + [SLASH] + rest) <==> WellEscaped(head) && WellEscaped(rest)
  {
    var s := head + [SLASH] + rest;
    var n := |head| + 1;
    assert s[|head|] == SLASH && forall p :: 0 <= p < |head| ==> s[p] == head[p];
    assert forall p :: n <= p < |s| ==> s[p] == rest[p - n];
    if WellEscaped(s) {
      forall p | 0 <= p < |rest| && rest[p] == TILDE
        ensures p + 1 < |rest| && (rest[p + 1] == ZERO || rest[p + 1] == ONE)
      {
        assert s[n + p] == TILDE && s[n + p + 1] == rest[p + 1];
      }
      forall p | 0 <= p < |head| && head[p] == TILDE
        ensures p + 1 < |head| && (head[p + 1] == ZERO || head[p + 1] == ONE)
      {
        assert s[p] == TILDE;
      }
    }
  }

  /** Exactly which texts are pointers, and to_string(split(s)) == s on all of them. */
  lemma ToStringInvertsSplit(s: Str)
    ensures Split(s).Ok? <==> (s == [] || (s[0] == SLASH && WellEscaped(s)))
    ensures Split(s).Ok? ==> ToString(Split(s).value) == s
  {
    if s != [] && s[0] == SLASH {
      FieldsRejoin(s[1..]);
      assert s == [] + [SLASH] + s[1..];
      WellEscapedJoin([], s[1..]);
      if Split(s).Ok? { ToStringIsPath(Split(s).value); }
    }
  }
}
