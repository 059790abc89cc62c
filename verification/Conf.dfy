/** Configurations (conf.c): "key=value;..." strings, cut up in place and loaded into hash
    tables, with a second table for the defaults. */
module Conf {
  import opened HTable
  import opened Wrappers

  // ---------------------------------------------------------------- the hash of a string

  /** A character as a signed C char. */
  function CharValue(c: char): (v: int)
    ensures -128 <= v < 128 && v % 256 == c as int % 256
  {
    var code := (c as int) % 256;
    if code < 128 then code else code - 256
  }

  /** The uint32_t accumulator after a string. */
  function HashFrom(h: nat, s: string): (r: nat)
    requires h < 0x1_0000_0000
    ensures r < 0x1_0000_0000
    decreases |s|
  {
    if s == "" then h else HashFrom((h * 31 + CharValue(s[0])) % 0x1_0000_0000, s[1..])
  }

  function HashString(s: string, max: nat): nat {
    if max == 0 then 0 else HashFrom(0, s) % max
  }

  /** ht_hash_string. */
  method HtHashString(str: string, max: nat) returns (r: nat)
    requires max > 0
    ensures r == HashString(str, max) == Polynomial(str) % 0x1_0000_0000 % max
  {
    var hash, s := 0, 0;
    while s < |str|
      invariant 0 <= s <= |str| && 0 <= hash < 0x1_0000_0000
      invariant HashFrom(0, str) == HashFrom(hash, str[s..])
    {
      hash := (hash * 31 + CharValue(str[s])) % 0x1_0000_0000;
      assert str[s..][1..] == str[s + 1..];
      s := s + 1;
    }
    r := hash % max;
    HashIsPolynomial(str, max);
  }

  function Pow31(n: nat): (p: nat) {
    if n == 0 then 1 else 31 * Pow31(n - 1)
  }

  /** The characters as the digits of a number in base 31, most significant first. */
  function Polynomial(s: string): int {
    if s == "" then 0 else CharValue(s[0]) * Pow31(|s| - 1) + Polynomial(s[1..])
  }

  /** The hash of a string is this number modulo 2 to the power 32, and then modulo the size
      of the table. */
  lemma HashIsPolynomial(s: string, max: nat)
    requires max > 0
    ensures HashString(s, max) == Polynomial(s) % 0x1_0000_0000 % max
  {
    HashContinues(0, s);
  }

  lemma {:induction false} HashContinues(h: nat, s: string)
    requires h < 0x1_0000_0000
    ensures HashFrom(h, s) == (h * Pow31(|s|) + Polynomial(s)) % 0x1_0000_0000
    decreases |s|
  {
    hide Pow31, Polynomial, CharValue, HashFrom;
    if s == "" {
      NoCharacters(h);
      HashEnd(h);
    } else {
      assert s == [s[0]] + s[1..];
      HashStep(h, s[0], s[1..]);
      var c, p, rest := CharValue(s[0]), Pow31(|s| - 1), Polynomial(s[1..]);
      var x := h * 31 + c;
      HashContinues(x % 0x1_0000_0000, s[1..]);
      ReduceFactor(x, p, rest);
      Horner(h, c, p, rest);
      PolynomialStep(s);
    }
  }

  lemma NoCharacters(h: nat)
    ensures h * Pow31(0) + Polynomial("") == h
  {
  }

  lemma PolynomialStep(s: string)
    requires s != ""
    ensures Pow31(|s|) == 31 * Pow31(|s| - 1)
    ensures Polynomial(s) == CharValue(s[0]) * Pow31(|s| - 1) + Polynomial(s[1..])
  {
  }

  lemma Horner(h: int, c: int, p: int, rest: int)
    ensures (h * 31 + c) * p + rest == h * (31 * p) + (c * p + rest)
  {
    assert h * 31 * p == h * (31 * p);
  }

  lemma ReduceFactor(x: int, p: nat, rest: int)
    ensures (x % 0x1_0000_0000 * p + rest) % 0x1_0000_0000 == (x * p + rest) % 0x1_0000_0000
  {
    var k := x / 0x1_0000_0000;
    assert x == k * 0x1_0000_0000 + x % 0x1_0000_0000;
    assert x * p == k * p * 0x1_0000_0000 + x % 0x1_0000_0000 * p;
  }

  /** "Aa" and "BB" have the same hash: of the two, the one put later is lost when the other is
      popped. */
  lemma PopLosesString(v1: string, v2: string)
    ensures var t := PutAll(Fresh(8), HashString, [("Aa", v1), ("BB", v2)]);
            && Lookup(t.slots, HashString, "BB") == Some(v2)
            && var r := Pop(t, HashString, "Aa");
               r.Removed? && Has(r.table.slots, "BB") && Lookup(r.table.slots, HashString, "BB") == None
  {
    hide PutAll, Lookup, Pop, Has;
    SameHash();
    assert "Aa"[0] != "BB"[0];
    PopLosesKey(HashString, "Aa", v1, "BB", v2);
  }

  lemma SameHash()
    ensures HashFrom(0, "Aa") == HashFrom(0, "BB") == 2112
  {
    HashOfTwo('A', 'a');
    HashOfTwo('B', 'B');
    assert "Aa" == ['A', 'a'] && "BB" == ['B', 'B'];
  }

  lemma HashOfTwo(a: char, b: char)
    requires a as int < 128 && b as int < 128
    ensures HashFrom(0, [a, b]) == a as int * 31 + b as int
  {
    hide HashFrom;
    HashStep(0, a, [b]);
    HashStep(a as int, b, []);
    HashEnd(a as int * 31 + b as int);
    assert [a] + [b] == [a, b] && [b] + [] == [b];
  }

  lemma HashStep(h: nat, c: char, s: string)
    requires h < 0x1_0000_0000
    ensures HashFrom(h, [c] + s) == HashFrom((h * 31 + CharValue(c)) % 0x1_0000_0000, s)
  {
    assert ([c] + s)[1..] == s;
  }

  lemma HashEnd(h: nat)
    requires h < 0x1_0000_0000
    ensures HashFrom(h, []) == h
  {
  }

  // ---------------------------------------------------------------- tokens

  /** The number of semicolons in front. */
  function Delimiters(s: string): (n: nat)
    ensures n <= |s| && (n < |s| ==> s[n] != ';')
    ensures forall i :: 0 <= i < n ==> s[i] == ';'
  {
    if s == "" || s[0] != ';' then 0 else 1 + Delimiters(s[1..])
  }

  /** The number of characters up to the first of a kind, or to the end. */
  function UpTo(s: string, c: char): (n: nat)
    ensures n <= |s| && (n < |s| ==> s[n] == c)
    ensures forall i :: 0 <= i < n ==> s[i] != c
  {
    if s == "" || s[0] == c then 0 else 1 + UpTo(s[1..], c)
  }

  /** That number is determined by these properties. */
  lemma {:induction false} UpToIs(s: string, c: char, n: nat)
    requires n <= |s| && (n < |s| ==> s[n] == c) && forall i :: 0 <= i < n ==> s[i] != c
    ensures UpTo(s, c) == n
  {
  }

  lemma {:induction false} DelimitersAre(s: string, n: nat)
    requires n <= |s| && (n < |s| ==> s[n] != ';') && forall i :: 0 <= i < n ==> s[i] == ';'
    ensures Delimiters(s) == n
  {
  }

  /** Where the next token starts and ends, if there is one. */
  datatype Cut = NoToken | Cut(start: nat, end: nat)

  function NextToken(s: string): (r: Cut)
    ensures r.Cut? ==> r.start < r.end <= |s|
  {
    var i := Delimiters(s);
    if i == |s| then NoToken else Cut(i, i + UpTo(s[i..], ';'))
  }

  /** What is behind it and the semicolon that ends it. */
  function Behind(s: string, end: nat): string
    requires end <= |s|
  {
    if end == |s| then "" else s[end + 1..]
  }

  /** The runs of characters between semicolons. */
  function Tokens(s: string): seq<string>
    decreases |s|
  {
    match NextToken(s)
    case NoToken => []
    case Cut(start, end) => [s[start..end]] + Tokens(Behind(s, end))
  }

  /** A token without an equals sign is a key with the value "true". */
  function KeyValue(tok: string): (string, string) {
    var n := UpTo(tok, '=');
    if n == |tok| then (tok, "true") else (tok[..n], tok[n + 1..])
  }

  function KeyValues(toks: seq<string>): (r: seq<(string, string)>)
    ensures |r| == |toks|
    ensures forall i :: 0 <= i < |toks| ==> r[i] == KeyValue(toks[i])
  {
    if toks == [] then [] else [KeyValue(toks[0])] + KeyValues(toks[1..])
  }

  /** The assignments in a configuration string. */
  function Assignments(s: string): seq<(string, string)> {
    KeyValues(Tokens(s))
  }

  // ---------------------------------------------------------------- the round trip

  predicate Free(s: string, c: char) {
    forall x <- s :: x != c
  }

  predicate Writable(p: (string, string)) {
    Free(p.0, '=') && Free(p.0, ';') && Free(p.1, ';')
  }

  function Rendered(pairs: seq<(string, string)>): string {
    if pairs == [] then "" else pairs[0].0 + "=" + pairs[0].1 + ";" + Rendered(pairs[1..])
  }

  lemma FirstToken(tok: string, rest: string)
    requires tok != "" && Free(tok, ';')
    ensures Tokens(tok + ";" + rest) == [tok] + Tokens(rest)
  {
    hide Delimiters, UpTo;
    var s := tok + ";" + rest;
    assert tok[0] in tok && s[0] == tok[0];
    DelimitersAre(s, 0);
    assert s[0..] == s && s[|tok|] == ';' && forall i :: 0 <= i < |tok| ==> s[i] == tok[i] && tok[i] in tok;
    UpToIs(s, ';', |tok|);
    assert NextToken(s) == Cut(0, |tok|);
    assert s[0..|tok|] == tok && s[|tok| + 1..] == rest;
  }

  lemma KeyValueOf(p: (string, string))
    requires Free(p.0, '=')
    ensures KeyValue(p.0 + "=" + p.1) == p
  {
    var tok := p.0 + "=" + p.1;
    assert tok[|p.0|] == '=' && forall i :: 0 <= i < |p.0| ==> tok[i] == p.0[i] && p.0[i] in p.0;
    UpToIs(tok, '=', |p.0|);
    assert tok[..|p.0|] == p.0 && tok[|p.0| + 1..] == p.1;
  }

  lemma {:induction false} RenderedReadsBack(pairs: seq<(string, string)>)
    requires forall p <- pairs :: Writable(p)
    ensures Assignments(Rendered(pairs)) == pairs
  {
    hide KeyValue, Tokens;
    if pairs == [] {
      NoTokens();
    } else {
      var p := pairs[0];
      assert p in pairs && forall q <- pairs[1..] :: q in pairs;
      var tok := p.0 + "=" + p.1;
      FirstToken(tok, Rendered(pairs[1..]));
      KeyValueOf(p);
      RenderedReadsBack(pairs[1..]);
      assert Rendered(pairs) == tok + ";" + Rendered(pairs[1..]);
      assert ([tok] + Tokens(Rendered(pairs[1..])))[1..] == Tokens(Rendered(pairs[1..]));
    }
  }

  lemma NoTokens()
    ensures Tokens("") == []
  {
  }

  // Strings that were not written by Rendered.

  /** The last token needs no semicolon behind it. */
  lemma LastToken(tok: string)
    requires tok != "" && Free(tok, ';')
    ensures Tokens(tok) == [tok]
  {
    hide Delimiters, UpTo;
    assert tok[0] in tok && forall i :: 0 <= i < |tok| ==> tok[i] in tok;
    DelimitersAre(tok, 0);
    assert tok[0..] == tok;
    UpToIs(tok, ';', |tok|);
    assert NextToken(tok) == Cut(0, |tok|);
    NoTokens();
    assert tok[0..|tok|] == tok && Tokens(Behind(tok, |tok|)) == [];
  }

  lemma TokenLater(s: string)
    ensures NextToken(";" + s) == match NextToken(s)
                                  case NoToken => NoToken
                                  case Cut(start, end) => Cut(start + 1, end + 1)
  {
    hide UpTo;
    var t, n := ";" + s, Delimiters(s);
    assert t[1..] == s && Delimiters(t) == 1 + n;
    assert t[1 + n..] == s[n..];
  }

  /** Semicolons in front of a token are skipped. */
  lemma ExtraSemicolon(s: string)
    ensures Tokens(";" + s) == Tokens(s)
  {
    hide NextToken;
    var t := ";" + s;
    TokenLater(s);
    match NextToken(s)
    case NoToken =>
    case Cut(start, end) =>
      assert t[start + 1..end + 1] == s[start..end];
      assert end < |s| ==> t[end + 1 + 1..] == s[end + 1..];
  }

  /** A key without an equals sign is assigned "true", wherever it stands. */
  lemma BareKey(key: string, rest: string)
    requires key != "" && Free(key, ';') && Free(key, '=')
    ensures Assignments(key) == [(key, "true")]
    ensures Assignments(key + ";" + rest) == [(key, "true")] + Assignments(rest)
  {
    hide Tokens, UpTo;
    LastToken(key);
    FirstToken(key, rest);
    assert forall i :: 0 <= i < |key| ==> key[i] in key;
    UpToIs(key, '=', |key|);
    assert KeyValue(key) == (key, "true");
    assert ([key] + Tokens(rest))[1..] == Tokens(rest) && [key][1..] == [];
  }

  /** So a configuration that is nothing but a key answers "true" for it. */
  lemma BareKeyIsTrue(key: string, defaults: string)
    requires key != "" && Free(key, ';') && Free(key, '=')
    ensures ConfGet(key, defaults, key) == Some("true")
  {
    hide Assignments;
    BareKey(key, "");
    PutsThenGet(HashString, 8, Assignments(key), key);
  }

  lemma PartFree(s: string, i: nat, j: nat, c: char)
    requires i <= j <= |s| && forall k :: i <= k < j ==> s[k] != c
    ensures Free(s[i..j], c)
  {
  }

  lemma {:induction false} TokensFree(s: string)
    ensures forall tok <- Tokens(s) :: Free(tok, ';')
    decreases |s|
  {
    match NextToken(s)
    case NoToken =>
    case Cut(start, end) =>
      TokensFree(Behind(s, end));
      assert forall j :: start <= j < end ==> s[j] == s[start..][j - start];
      PartFree(s, start, end, ';');
  }

  /** A written configuration gives back exactly the assignments it was written from if and
      only if no key has an equals sign or a semicolon in it and no value a semicolon. */
  lemma ReadsBackExactly(pairs: seq<(string, string)>)
    ensures Assignments(Rendered(pairs)) == pairs <==> forall p <- pairs :: Writable(p)
  {
    if forall p <- pairs :: Writable(p) {
      RenderedReadsBack(pairs);
    }
    var toks := Tokens(Rendered(pairs));
    TokensFree(Rendered(pairs));
    forall i | 0 <= i < |toks|
      ensures Writable(KeyValues(toks)[i])
    {
      assert toks[i] in toks;
      KeyValueWritable(toks[i]);
    }
  }

  lemma KeyValueWritable(tok: string)
    requires Free(tok, ';')
    ensures Writable(KeyValue(tok))
  {
    var n := UpTo(tok, '=');
    assert forall i :: 0 <= i < |tok| ==> tok[i] in tok;
    PartFree(tok, 0, n, '=');
    PartFree(tok, 0, n, ';');
    if n < |tok| {
      PartFree(tok, n + 1, |tok|, ';');
    }
  }

  // ---------------------------------------------------------------- what a configuration answers

  /** The slots that htable_from_str makes of a string. */
  function Loaded(s: string): (t: Table<string, string>)
    ensures t.slots != []
  {
    PutAll(Fresh(8), HashString, Assignments(s))
  }

  /** htrace_conf_get: the values first, then the defaults. */
  function ConfGet(values: string, defaults: string, key: string): Option<string> {
    match Lookup(Loaded(values).slots, HashString, key)
    case Some(v) => Some(v)
    case None => Lookup(Loaded(defaults).slots, HashString, key)
  }

  predicate Assigns(s: string, key: string) {
    exists p <- Assignments(s) :: p.0 == key
  }

  /** For any two strings: a key that neither assigns has no value, and any other key has one
      that is assigned to it, in the defaults only when the values do not mention it. */
  lemma ConfGetMeaning(values: string, defaults: string, key: string)
    ensures var r := ConfGet(values, defaults, key);
            && (r.None? <==> !Assigns(values, key) && !Assigns(defaults, key))
            && (r.Some? ==> (key, r.value) in Assignments(if Assigns(values, key) then values else defaults))
  {
    hide Assignments;
    PutsThenGet(HashString, 8, Assignments(values), key);
    PutsThenGet(HashString, 8, Assignments(defaults), key);
  }

  /** A map written out and loaded answers with the map's value for its keys and with the
      defaults for all others, however often the table was rehashed. */
  lemma WrittenMapIsRead(pairs: seq<(string, string)>, defaults: string, key: string)
    requires DistinctKeys(pairs) && forall p <- pairs :: Writable(p)
    ensures var r := ConfGet(Rendered(pairs), defaults, key);
            && (forall p <- pairs :: p.0 == key ==> r == Some(p.1))
            && ((forall p <- pairs :: p.0 != key) ==> r == Lookup(Loaded(defaults).slots, HashString, key))
  {
    RenderedReadsBack(pairs);
    PutsThenGet(HashString, 8, pairs, key);
  }

  // ---------------------------------------------------------------- the loops of the source

  /** strspn with ";", in a string that ends at a position. */
  method Span(str: array<char>, from: nat, last: nat) returns (n: nat)
    requires from <= last <= str.Length
    ensures n == Delimiters(str[from..last])
  {
    n := 0;
    while from + n < last && str[from + n] == ';'
      invariant from + n <= last && forall i :: from <= i < from + n ==> str[i] == ';'
    {
      n := n + 1;
    }
    DelimitersAre(str[from..last], n);
  }

  /** strcspn and strchr. */
  method UpToChar(str: array<char>, from: nat, last: nat, c: char) returns (n: nat)
    requires from <= last <= str.Length
    ensures n == UpTo(str[from..last], c)
  {
    n := 0;
    while from + n < last && str[from + n] != c
      invariant from + n <= last && forall i :: from <= i < from + n ==> str[i] != c
    {
      n := n + 1;
    }
    UpToIs(str[from..last], c, n);
  }

  /** strtok_r with ";" from the saved position on, in a string that ends at the end of the
      array: the token found, its end, where a zero is put if a semicolon was there, and the
      position to go on from. */
  method StrtokR(str: array<char>, save: nat) returns (tok: Option<nat>, end: nat, next: nat)
    requires save < str.Length
    modifies str
    ensures var last := str.Length - 1; var rest := old(str[save..last]);
            match NextToken(rest)
            case NoToken => tok == None && next == last
            case Cut(s, e) =>
              && tok == Some(save + s) && end == save + e && next == (if end == last then last else end + 1)
              && (end < last ==> str[end] == '\0')
              && str[save + s..end] == rest[s..e] && str[next..last] == Behind(rest, e)
    ensures forall i :: 0 <= i < str.Length && (tok == None || i != end) ==> str[i] == old(str[i])
  {
    hide Delimiters, UpTo;
    var last := str.Length - 1;
    ghost var s := str[save..last];
    var n := Span(str, save, last);
    var t := save + n;
    if t == last {
      return None, last, last;
    }
    assert s[t - save..] == str[t..last];
    n := UpToChar(str, t, last, ';');
    tok, end := Some(t), t + n;
    ghost var word, behind := str[t..end], Behind(s, end - save);
    assert word == s[t - save..end - save];
    assert end < last ==> behind == str[end + 1..last];
    if end == last {
      next := last;
    } else {
      next := end + 1;
      str[end] := '\0';
    }
    assert str[t..end] == word && str[next..last] == behind;
  }

  /** parse_key_value, on the token between two positions. */
  method ParseKeyValue(str: array<char>, tok: nat, end: nat) returns (key: string, val: string)
    requires tok <= end <= str.Length
    modifies str
    ensures (key, val) == KeyValue(old(str[tok..end]))
    ensures forall i :: 0 <= i < str.Length && !(tok <= i < end) ==> str[i] == old(str[i])
  {
    ghost var s := str[tok..end];
    var n := UpToChar(str, tok, end, '=');
    var eq := tok + n;
    if eq < end {
      str[eq] := '\0';
      val := str[eq + 1..end];
      key := str[tok..eq];
      assert key == s[..eq - tok] && val == s[eq - tok + 1..];
    } else {
      val := "true";
      key := str[tok..end];
    }
  }

  /** The capacity that so many puts can lead to. */
  predicate Roomy(slots: nat, used: int) {
    slots <= 8 || slots <= 4 * used
  }

  /** htable_from_str; None for NULL. */
  method HtableFromStr(str: Option<string>) returns (ht: HTable<string, string>)
    requires str.Some? ==> |str.value| < 0x1000_0000
    ensures fresh(ht) && ht.Valid() && ht.hash == HashString
    ensures ht.View() == Loaded(if str.Some? then str.value else "")
  {
    hide Loaded;
    ht := new HTable(8, HashString);
    PowerLiterals();
    assert ht.View() == Fresh(8);
    NothingLoaded();
    if str.None? {
      return;
    }
    var n := |str.value|;
    var cstr := new char[n + 1](i requires 0 <= i <= n => if i < n then str.value[i] else '\0');
    assert cstr[0..n] == str.value;
    PutTokens(ht, cstr, str.value);
  }

  /** Its loop. */
  method PutTokens(ht: HTable<string, string>, cstr: array<char>, ghost s: string)
    requires cstr.Length < 0x1000_0001 && cstr.Length > 0 && cstr[0..cstr.Length - 1] == s
    requires ht.Valid() && ht.hash == HashString && ht.View() == Fresh(8)
    modifies ht, ht.elem, cstr
    ensures ht.Valid() && (ht.elem == old(ht.elem) || fresh(ht.elem)) && ht.View() == Loaded(s)
  {
    hide Assignments, PutAll, NextToken, KeyValue, Put, Sized, Behind;
    var n := cstr.Length - 1;
    var save := 0;
    ghost var done: seq<(string, string)> := [];
    NothingPut(Fresh<string, string>(8), HashString);
    while true
      invariant 0 <= save <= n && ht.Valid() && (ht.elem == old(ht.elem) || fresh(ht.elem))
      invariant |done| <= save && ht.used == |done| && Roomy(ht.elem.Length, ht.used)
      invariant ht.View() == PutAll(Fresh(8), HashString, done)
      invariant Assignments(s) == done + Assignments(cstr[save..n])
      decreases n - save
    {
      ghost var rest := cstr[save..n];
      AssignmentsStep(rest);
      var more, next := PutToken(ht, cstr, save);
      if !more {
        assert done + [] == done;
        return;
      }
      ghost var cut := NextToken(rest);
      ghost var pair := KeyValue(rest[cut.start..cut.end]);
      PutLast(Fresh(8), HashString, done, pair);
      assert done + ([pair] + Assignments(cstr[next..n])) == (done + [pair]) + Assignments(cstr[next..n]);
      done := done + [pair];
      save := next;
    }
  }

  /** One round: strtok_r, and for a token parse_key_value and htable_put. */
  method PutToken(ht: HTable<string, string>, cstr: array<char>, save: nat) returns (more: bool, next: nat)
    requires save < cstr.Length
    requires ht.Valid() && ht.hash == HashString && Roomy(ht.elem.Length, ht.used) && ht.used < 0x1000_0000
    modifies ht, ht.elem, cstr
    ensures ht.Valid() && (ht.elem == old(ht.elem) || fresh(ht.elem)) && Roomy(ht.elem.Length, ht.used)
    ensures next < cstr.Length
    ensures var last := cstr.Length - 1; var rest := old(cstr[save..last]);
            match NextToken(rest)
            case NoToken => !more && ht.View() == old(ht.View())
            case Cut(s, e) =>
              && more && next > save && cstr[next..last] == Behind(rest, e)
              && ht.used == old(ht.used) + 1
              && var pair := KeyValue(rest[s..e]);
                 ht.View() == Put(old(ht.View()), HashString, pair.0, pair.1)
  {
    hide NextToken, KeyValue, Sized, Insert, Rehash, Behind;
    var tok, end;
    ghost var last := cstr.Length - 1;
    tok, end, next := StrtokR(cstr, save);
    more := tok.Some?;
    if more {
      ghost var behind := cstr[next..last];
      var key, val := ParseKeyValue(cstr, tok.value, end);
      assert cstr[next..last] == behind;
      var ret := ht.PutPair(Some(key), Some(val));
    }
  }

  lemma NothingLoaded()
    ensures Loaded("") == Fresh(8)
  {
    NoTokens();
    NothingPut(Fresh<string, string>(8), HashString);
  }

  lemma AssignmentsStep(s: string)
    ensures match NextToken(s)
            case NoToken => Assignments(s) == []
            case Cut(start, end) => Assignments(s) == [KeyValue(s[start..end])] + Assignments(Behind(s, end))
  {
    hide NextToken, KeyValue, Behind;
    match NextToken(s)
    case NoToken =>
    case Cut(start, end) =>
      var toks := [s[start..end]] + Tokens(Behind(s, end));
      assert toks[0] == s[start..end] && toks[1..] == Tokens(Behind(s, end));
  }

  // ---------------------------------------------------------------- the configuration object

  class HtraceConf {
    var values: HTable<string, string>
    var defaults: HTable<string, string>

    /** The tables hold what two strings assign. */
    ghost predicate Holds(valueStr: string, defaultStr: string)
      reads this, values, defaults, values.elem, defaults.elem
    {
      && values.Valid() && values.hash == HashString && values.View() == Loaded(valueStr)
      && defaults.Valid() && defaults.hash == HashString && defaults.View() == Loaded(defaultStr)
    }

    /** htrace_conf_from_strs. */
    constructor (valueStr: Option<string>, defaultStr: Option<string>)
      requires valueStr.Some? ==> |valueStr.value| < 0x1000_0000
      requires defaultStr.Some? ==> |defaultStr.value| < 0x1000_0000
      ensures fresh(values) && fresh(defaults)
      ensures Holds(if valueStr.Some? then valueStr.value else "", if defaultStr.Some? then defaultStr.value else "")
    {
      hide Loaded;
      var v := HtableFromStr(valueStr);
      var d := HtableFromStr(defaultStr);
      values, defaults := v, d;
    }

    /** htrace_conf_get; None for NULL. */
    method Get(key: string, ghost valueStr: string, ghost defaultStr: string) returns (val: Option<string>)
      requires Holds(valueStr, defaultStr)
      ensures val == ConfGet(valueStr, defaultStr, key)
      ensures val.None? <==> !Assigns(valueStr, key) && !Assigns(defaultStr, key)
    {
      hide Loaded, Assigns, Lookup;
      ConfGetMeaning(valueStr, defaultStr, key);
      val := values.Get(key);
      if val.Some? {
        return;
      }
      val := defaults.Get(key);
    }
  }
}
