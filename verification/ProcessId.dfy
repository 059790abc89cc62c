/** The process id template of process_id.c.

    The source runs a machine over the characters with an escape flag and a second buffer
    for the name of a variable.  Here it is proved against a definition in two passes:
    backslashes first, then variables. */
module ProcessId {
  import opened Wrappers

  // ---------------------------------------------------------------- the meaning of a template

  /** A character of a template, and whether a backslash stood before it. */
  datatype Unit = Unit(c: char, escaped: bool)

  /** Backslashes taken away; one at the very end is dropped.  `escaped` tells whether a
      backslash stood before the text. */
  function Units(s: string, escaped: bool): seq<Unit> {
    if s == "" then []
    else if s[0] == '\\' && !escaped then Units(s[1..], true)
    else [Unit(s[0], escaped)] + Units(s[1..], false)
  }

  function Chars(u: seq<Unit>): (s: string)
    ensures |s| == |u|
  {
    seq(|u|, i requires 0 <= i < |u| => u[i].c)
  }

  /** Where a variable ends: at the first closing brace without a backslash. */
  function CloseAt(u: seq<Unit>): (k: Option<nat>)
    ensures k.Some? ==> k.value < |u| && u[k.value] == Unit('}', false)
  {
    if u == [] then None
    else if u[0] == Unit('}', false) then Some(0)
    else
      match CloseAt(u[1..])
      case Some(k) => Some(k + 1)
      case None => None
  }

  /** What the variables stand for: the name of the tracer, the best local address and the
      number of the process. */
  datatype Env = Env(tname: string, ip: string, pid: string)

  /** Unknown variables stand for nothing. */
  function Value(env: Env, name: string): string {
    if name == "tname" then env.tname
    else if name == "ip" then env.ip
    else if name == "pid" then env.pid
    else ""
  }

  predicate OpensVariable(u: seq<Unit>) {
    |u| > 1 && u[0] == Unit('%', false) && u[1] == Unit('{', false)
  }

  /** A variable that is not closed swallows the rest, and so does a single % at the end. */
  function Expand(env: Env, u: seq<Unit>): string
    decreases |u|
  {
    if u == [] then ""
    else if OpensVariable(u) then
      match CloseAt(u[2..])
      case None => ""
      case Some(k) => Value(env, Chars(u[2..2 + k])) + Expand(env, u[2 + k + 1..])
    else if u[0] == Unit('%', false) then
      if |u| == 1 then "" else ['%', u[1].c] + Expand(env, u[2..])
    else [u[0].c] + Expand(env, u[1..])
  }

  function ExpandTemplate(env: Env, fmt: string): string {
    Expand(env, Units(fmt, false))
  }

  // ---------------------------------------------------------------- templates from pieces

  datatype Piece = Lit(text: string) | Var(name: string)

  /** The characters that a template gives a meaning. */
  predicate Special(c: char) {
    c == '\\' || c == '%'
  }

  /** A text with a backslash before every backslash and percent sign. */
  function Escape(s: string): string {
    if s == "" then ""
    else (if Special(s[0]) then ['\\', s[0]] else [s[0]]) + Escape(s[1..])
  }

  predicate PlainName(name: string) {
    forall c <- name :: c != '\\' && c != '}'
  }

  function Written(pieces: seq<Piece>): string {
    if pieces == [] then ""
    else
      (match pieces[0]
       case Lit(text) => Escape(text)
       case Var(name) => "%{" + name + "}")
      + Written(pieces[1..])
  }

  function Meant(env: Env, pieces: seq<Piece>): string {
    if pieces == [] then ""
    else
      (match pieces[0]
       case Lit(text) => text
       case Var(name) => Value(env, name))
      + Meant(env, pieces[1..])
  }

  /** A text with the characters marked that are written with a backslash. */
  function Marked(s: string): (u: seq<Unit>)
    ensures |u| == |s|
  {
    seq(|s|, i requires 0 <= i < |s| => Unit(s[i], Special(s[i])))
  }

  lemma UnitsCons(c: char, rest: string, escaped: bool)
    ensures Units([c] + rest, escaped)
            == if c == '\\' && !escaped then Units(rest, true) else [Unit(c, escaped)] + Units(rest, false)
  {
    assert ([c] + rest)[1..] == rest;
  }

  lemma {:induction false} EscapedUnits(s: string, rest: string)
    ensures Units(Escape(s) + rest, false) == Marked(s) + Units(rest, false)
  {
    hide Units, Marked;
    MarkedCons(s);
    if s == "" {
      assert Escape(s) + rest == rest && Marked(s) + Units(rest, false) == Units(rest, false);
    } else {
      EscapedUnits(s[1..], rest);
      EscapedOne(s[0], Escape(s[1..]) + rest);
      var one := if Special(s[0]) then ['\\', s[0]] else [s[0]];
      assert Escape(s) + rest == one + (Escape(s[1..]) + rest);
      assert Marked(s) + Units(rest, false) == [Unit(s[0], Special(s[0]))] + (Marked(s[1..]) + Units(rest, false));
    }
  }

  lemma MarkedCons(s: string)
    ensures s == "" ==> Marked(s) == []
    ensures s != "" ==> Marked(s) == [Unit(s[0], Special(s[0]))] + Marked(s[1..])
  {
  }

  lemma EscapedOne(c: char, tail: string)
    ensures Units((if Special(c) then ['\\', c] else [c]) + tail, false) == [Unit(c, Special(c))] + Units(tail, false)
  {
    hide Units;
    if Special(c) {
      assert ['\\', c] + tail == ['\\'] + ([c] + tail);
      UnitsCons('\\', [c] + tail, false);
      UnitsCons(c, tail, true);
    } else {
      UnitsCons(c, tail, false);
    }
  }

  lemma ExpandCons(env: Env, x: Unit, u: seq<Unit>)
    requires x != Unit('%', false)
    ensures Expand(env, [x] + u) == [x.c] + Expand(env, u)
  {
    assert ([x] + u)[1..] == u;
  }

  lemma {:induction false} MarkedExpands(env: Env, s: string, u: seq<Unit>)
    ensures Expand(env, Marked(s) + u) == s + Expand(env, u)
  {
    hide Expand;
    if s == "" {
      assert Marked(s) + u == u;
    } else {
      MarkedExpands(env, s[1..], u);
      assert Marked(s) + u == [Marked(s)[0]] + (Marked(s[1..]) + u);
      ExpandCons(env, Marked(s)[0], Marked(s[1..]) + u);
      assert s == [s[0]] + s[1..];
    }
  }

  lemma {:induction false} NameUnits(name: string, rest: string)
    requires PlainName(name)
    ensures var u := Units(name + "}" + rest, false);
            && CloseAt(u) == Some(|name|)
            && Chars(u[..|name|]) == name
            && u[|name| + 1..] == Units(rest, false)
  {
    var text := name + "}" + rest;
    var u := Units(text, false);
    if name == "" {
      assert text[0] == '}' && text[1..] == rest;
    } else {
      assert forall c <- name[1..] :: c in name;
      NameUnits(name[1..], rest);
      var v := Units(name[1..] + "}" + rest, false);
      assert name[0] in name && text[0] == name[0] && text[1..] == name[1..] + "}" + rest;
      assert u == [Unit(name[0], false)] + v && u[1..] == v;
      assert u[..|name|] == [u[0]] + v[..|name| - 1];
      assert Chars(u[..|name|]) == [name[0]] + Chars(v[..|name| - 1]);
      assert u[|name| + 1..] == v[|name|..];
    }
  }

  lemma VariableExpands(env: Env, name: string, rest: string)
    requires PlainName(name)
    ensures ExpandTemplate(env, "%{" + name + "}" + rest) == Value(env, name) + ExpandTemplate(env, rest)
  {
    hide Value;
    var body := name + "}" + rest;
    NameUnits(name, rest);
    var text := "%{" + name + "}" + rest;
    assert text == ['%'] + (['{'] + body);
    UnitsCons('%', ['{'] + body, false);
    UnitsCons('{', body, false);
    var u := Units(text, false);
    assert u == [Unit('%', false)] + ([Unit('{', false)] + Units(body, false));
    assert u[2..] == Units(body, false);
    assert u[2..2 + |name|] == Units(body, false)[..|name|];
    assert u[2 + |name| + 1..] == Units(body, false)[|name| + 1..];
  }

  /** A template written out of texts and variables means what they mean in a row. */
  lemma {:induction false} TemplateMeaning(env: Env, pieces: seq<Piece>)
    requires forall p <- pieces :: p.Var? ==> PlainName(p.name)
    ensures ExpandTemplate(env, Written(pieces)) == Meant(env, pieces)
  {
    hide Expand, Value, Units, Escape;
    if pieces == [] {
      NothingExpands(env);
    } else {
      assert pieces[0] in pieces && forall p <- pieces[1..] :: p in pieces;
      var rest := Written(pieces[1..]);
      TemplateMeaning(env, pieces[1..]);
      match pieces[0]
      case Lit(text) =>
        EscapedUnits(text, rest);
        MarkedExpands(env, text, Units(rest, false));
      case Var(name) =>
        VariableExpands(env, name, rest);
    }
  }

  lemma NothingExpands(env: Env)
    ensures ExpandTemplate(env, "") == ""
  {
  }

  /** In particular, a variable with any text before and after it. */
  lemma VariableBetween(env: Env, name: string, a: string, b: string)
    requires PlainName(name)
    ensures ExpandTemplate(env, Escape(a) + ("%{" + name + "}") + Escape(b)) == a + Value(env, name) + b
  {
    hide ExpandTemplate, Escape, Value;
    var pieces := [Lit(a), Var(name), Lit(b)];
    TemplateMeaning(env, pieces);
    assert pieces[1..] == [Var(name), Lit(b)] && pieces[1..][1..] == [Lit(b)] && [Lit(b)][1..] == [];
    assert Written([Lit(b)]) == Escape(b) + "";
    assert Written([Var(name), Lit(b)]) == "%{" + name + "}" + Written([Lit(b)]);
    assert Written(pieces) == Escape(a) + ("%{" + name + "}") + Escape(b);
    assert Meant(env, [Lit(b)]) == b + "";
    assert Meant(env, [Var(name), Lit(b)]) == Value(env, name) + b;
    assert Meant(env, pieces) == a + Value(env, name) + b;
  }

  lemma TracerNameBetween(env: Env, a: string, b: string)
    ensures ExpandTemplate(env, Escape(a) + "%{tname}" + Escape(b)) == a + env.tname + b
  {
    VariableBetween(env, "tname", a, b);
    assert "%{" + "tname" + "}" == "%{tname}";
  }

  lemma AddressBetween(env: Env, a: string, b: string)
    ensures ExpandTemplate(env, Escape(a) + "%{ip}" + Escape(b)) == a + env.ip + b
  {
    VariableBetween(env, "ip", a, b);
    assert "%{" + "ip" + "}" == "%{ip}";
  }

  lemma ProcessNumberBetween(env: Env, a: string, b: string)
    ensures ExpandTemplate(env, Escape(a) + "%{pid}" + Escape(b)) == a + env.pid + b
  {
    VariableBetween(env, "pid", a, b);
    assert "%{" + "pid" + "}" == "%{pid}";
  }

  /** The name of the tracer and the number of the process with a slash between them. */
  lemma NameAndNumber(env: Env)
    ensures ExpandTemplate(env, "%{tname}/%{pid}") == env.tname + "/" + env.pid
  {
    hide Expand, Value, Units, Escape;
    VariableExpands(env, "tname", "/%{pid}");
    TextFirst(env, "/", "%{pid}");
    SlashEscaped();
    VariableExpands(env, "pid", "");
    NothingExpands(env);
    ValuesAre(env);
    assert "%{" + "tname" + "}" + "/%{pid}" == "%{tname}/%{pid}" && "/" + "%{pid}" == "/%{pid}";
    assert "%{" + "pid" + "}" + "" == "%{pid}";
  }

  lemma SlashEscaped()
    ensures Escape("/") == "/"
  {
  }

  lemma ValuesAre(env: Env)
    ensures Value(env, "tname") == env.tname && Value(env, "pid") == env.pid
  {
  }

  /** Any other variable stands for nothing. */
  lemma UnknownBetween(env: Env, name: string, a: string, b: string)
    requires PlainName(name) && name != "tname" && name != "ip" && name != "pid"
    ensures ExpandTemplate(env, Escape(a) + ("%{" + name + "}") + Escape(b)) == a + b
  {
    hide ExpandTemplate, Escape;
    VariableBetween(env, name, a, b);
  }

  /** A text in front of anything stands for itself. */
  lemma TextFirst(env: Env, a: string, rest: string)
    ensures ExpandTemplate(env, Escape(a) + rest) == a + ExpandTemplate(env, rest)
  {
    hide Expand, Units, Escape, Marked;
    EscapedUnits(a, rest);
    MarkedExpands(env, a, Units(rest, false));
  }

  /** A backslash takes any meaning from the character behind it, and is dropped. */
  lemma Backslash(env: Env, a: string, c: char, rest: string)
    ensures ExpandTemplate(env, Escape(a) + (['\\', c] + rest)) == a + ([c] + ExpandTemplate(env, rest))
    ensures ExpandTemplate(env, Escape(a) + "\\") == a
  {
    hide Escape;
    TextFirst(env, a, ['\\', c] + rest);
    TextFirst(env, a, "\\");
    assert ['\\', c] + rest == ['\\'] + ([c] + rest);
    UnitsCons('\\', [c] + rest, false);
    UnitsCons(c, rest, true);
    ExpandCons(env, Unit(c, true), Units(rest, false));
  }

  /** A percent sign that opens no variable is kept with the character behind it, whose own
      meaning is lost; at the very end it is dropped. */
  lemma LonePercent(env: Env, a: string, c: char, rest: string)
    requires c != '{' && c != '\\'
    ensures ExpandTemplate(env, Escape(a) + (['%', c] + rest)) == a + (['%', c] + ExpandTemplate(env, rest))
    ensures ExpandTemplate(env, Escape(a) + "%") == a
  {
    hide Escape;
    TextFirst(env, a, ['%', c] + rest);
    TextFirst(env, a, "%");
    assert ['%', c] + rest == ['%'] + ([c] + rest);
    UnitsCons('%', [c] + rest, false);
    UnitsCons(c, rest, false);
    var u := [Unit('%', false), Unit(c, false)] + Units(rest, false);
    assert u == [Unit('%', false)] + ([Unit(c, false)] + Units(rest, false));
    assert u[2..] == Units(rest, false);
  }

  /** A variable without a closing brace swallows the rest, and a brace with a backslash does
      not close it. */
  lemma Unclosed(env: Env, a: string, name: string, rest: string)
    requires PlainName(name) && forall c <- rest :: c != '}'
    ensures ExpandTemplate(env, Escape(a) + ("%{" + name + "\\}" + rest)) == a
    ensures ExpandTemplate(env, Escape(a) + ("%{" + rest)) == a
  {
    hide Escape;
    var body := name + "\\}" + rest;
    NeverCloses(name, rest);
    UnclosedRest(env, body);
    TextFirst(env, a, "%{" + body);
    assert "%{" + name + "\\}" + rest == "%{" + body;
    NoBrace(rest, false);
    UnclosedRest(env, rest);
    TextFirst(env, a, "%{" + rest);
  }

  lemma UnclosedRest(env: Env, body: string)
    requires CloseAt(Units(body, false)).None?
    ensures ExpandTemplate(env, "%{" + body) == ""
  {
    assert "%{" + body == ['%'] + (['{'] + body);
    UnitsCons('%', ['{'] + body, false);
    UnitsCons('{', body, false);
    var u := Units("%{" + body, false);
    assert u == [Unit('%', false)] + ([Unit('{', false)] + Units(body, false));
    assert u[2..] == Units(body, false);
  }

  lemma {:induction false} NoBrace(s: string, escaped: bool)
    requires forall c <- s :: c != '}'
    ensures CloseAt(Units(s, escaped)) == None
    decreases |s|
  {
    if s != "" {
      assert s[0] in s && forall c <- s[1..] :: c in s;
      var u := Units(s, escaped);
      if s[0] == '\\' && !escaped {
        NoBrace(s[1..], true);
      } else {
        NoBrace(s[1..], false);
        assert u[1..] == Units(s[1..], false);
      }
    }
  }

  lemma {:induction false} NeverCloses(name: string, rest: string)
    requires PlainName(name) && forall c <- rest :: c != '}'
    ensures CloseAt(Units(name + "\\}" + rest, false)) == None
  {
    var s := name + "\\}" + rest;
    if name == "" {
      assert s == ['\\'] + (['}'] + rest);
      UnitsCons('\\', ['}'] + rest, false);
      UnitsCons('}', rest, true);
      NoBrace(rest, false);
      assert Units(s, false)[1..] == Units(rest, false);
    } else {
      assert name[0] in name && forall c <- name[1..] :: c in name;
      NeverCloses(name[1..], rest);
      assert s[0] == name[0] && s[1..] == name[1..] + "\\}" + rest;
      assert Units(s, false)[1..] == Units(s[1..], false);
    }
  }

  /** A doubled percent sign stands for itself: both are kept, and a brace behind them opens
      no variable. */
  lemma DoubledPercent(env: Env, rest: string)
    ensures ExpandTemplate(env, "%%" + rest) == "%%" + ExpandTemplate(env, rest)
  {
    assert "%%" + rest == ['%'] + (['%'] + rest);
    UnitsCons('%', ['%'] + rest, false);
    UnitsCons('%', rest, false);
    var u := Units("%%" + rest, false);
    assert u == [Unit('%', false), Unit('%', false)] + Units(rest, false);
    assert u[2..] == Units(rest, false);
  }

  // ---------------------------------------------------------------- the machine

  /** A growing string and the index of its end: out and j, or var and v.  An empty array
      stands for the NULL that var starts as. */
  class CharBuffer {
    var buf: array<char>
    var end: nat

    ghost predicate Valid()
      reads this, buf
    {
      end <= buf.Length && (end > 0 ==> Terminated())
    }

    ghost predicate Terminated()
      reads this, buf
    {
      end < buf.Length && buf[end] == '\0'
    }

    ghost function Text(): string
      reads this, buf
      requires Valid()
    {
      buf[..end]
    }

    /** A NULL pointer. */
    constructor Null()
      ensures Valid() && Text() == "" && fresh(buf)
    {
      buf, end := new char[0], 0;
    }

    /** free, and NULL again. */
    method Free()
      modifies this
      ensures Valid() && Text() == "" && fresh(buf)
    {
      buf, end := new char[0], 0;
    }

    /** strdup. */
    constructor Strdup(s: string)
      ensures Valid() && Terminated() && Text() == s && fresh(buf)
    {
      buf := new char[|s| + 1](i requires 0 <= i <= |s| => if i < |s| then s[i] else '\0');
      end := |s|;
    }

    /** append_char: room for one more character and a terminator behind it. */
    method AppendChar(c: char)
      requires Valid()
      modifies this
      ensures Valid() && Terminated() && fresh(buf) && Text() == old(Text()) + [c]
    {
      var nout := new char[end + 2];
      forall i | 0 <= i < end {
        nout[i] := buf[i];
      }
      buf := nout;
      buf[end] := c;
      end := end + 1;
      buf[end] := '\0';
    }

    /** asprintf of the text so far and another, and j moved to the new end. */
    method AppendString(s: string)
      requires Valid()
      modifies this
      ensures Valid() && Terminated() && fresh(buf) && Text() == old(Text()) + s
    {
      var nout := new char[end + |s| + 1];
      forall i | 0 <= i < end {
        nout[i] := buf[i];
      }
      forall i | 0 <= i < |s| {
        nout[end + i] := s[i];
      }
      ghost var before := Text();
      nout[end + |s|] := '\0';
      assert nout[..end] == before && nout[end..end + |s|] == s;
      buf := nout;
      end := end + |s|;
      assert buf[..end] == before + s;
    }
  }

  /** The text collected for a variable: none, a percent sign, or more. */
  predicate GoodName(v: string) {
    v == "" || v == "%" || (|v| >= 2 && v[..2] == "%{")
  }

  /** What the rest of a template adds to the output, by the number of characters of a
      variable that have been collected. */
  function Pending(env: Env, v: string, u: seq<Unit>): string
    requires GoodName(v)
  {
    if v == "" then Expand(env, u)
    else if v == "%" then Expand(env, [Unit('%', false)] + u)
    else
      match CloseAt(u)
      case None => ""
      case Some(k) => Value(env, v[2..] + Chars(u[..k])) + Expand(env, u[k + 1..])
  }

  /** One character, taken as it is. */
  lemma PendingStep(env: Env, v: string, u: seq<Unit>)
    requires GoodName(v)
    requires u != []
    ensures v == "" && u[0] == Unit('%', false) ==> Pending(env, v, u) == Pending(env, "%", u[1..])
    ensures v == "" && u[0] != Unit('%', false) ==> Pending(env, v, u) == [u[0].c] + Pending(env, "", u[1..])
    ensures v == "%" && u[0] == Unit('{', false) ==> Pending(env, v, u) == Pending(env, "%{", u[1..])
    ensures v == "%" && u[0] != Unit('{', false) ==> Pending(env, v, u) == ['%', u[0].c] + Pending(env, "", u[1..])
    ensures |v| >= 2 && u[0] == Unit('}', false) ==> Pending(env, v, u) == Value(env, v[2..]) + Pending(env, "", u[1..])
    ensures |v| >= 2 && u[0] != Unit('}', false) ==> Pending(env, v, u) == Pending(env, v + [u[0].c], u[1..])
  {
    if v == "" {
      assert [u[0]] + u[1..] == u;
    } else if v == "%" {
      var w := [Unit('%', false)] + u;
      assert w[2..] == u[1..];
      if u[0] == Unit('{', false) {
        VariableStarts(env, u);
      }
    } else if u[0] == Unit('}', false) {
      assert v[2..] + Chars(u[..0]) == v[2..];
    } else if CloseAt(u).Some? {
      var k := CloseAt(u).value;
      assert Chars(u[..k]) == [u[0].c] + Chars(u[1..][..k - 1]);
      assert (v + [u[0].c])[2..] + Chars(u[1..][..k - 1]) == v[2..] + Chars(u[..k]);
      assert u[1..][k - 1 + 1..] == u[k + 1..];
    }
  }

  lemma VariableStarts(env: Env, u: seq<Unit>)
    requires u != [] && u[0] == Unit('{', false)
    ensures Pending(env, "%", u) == Pending(env, "%{", u[1..])
  {
    var w := [Unit('%', false)] + u;
    assert w[2..] == u[1..];
    if CloseAt(u[1..]).Some? {
      var k := CloseAt(u[1..]).value;
      assert w[2..2 + k] == u[1..][..k] && w[2 + k + 1..] == u[1..][k + 1..];
      assert "%{"[2..] + Chars(u[1..][..k]) == Chars(u[1..][..k]);
    }
  }

  /** handle_process_subst_var. */
  method HandleProcessSubstVar(env: Env, out: CharBuffer, name: string)
    requires out.Valid() && out.Terminated()
    modifies out
    ensures out.Valid() && out.Terminated() && (out.buf == old(out.buf) || fresh(out.buf))
    ensures forall body :: name == "%{" + body + "}" ==> out.Text() == old(out.Text()) + Value(env, body)
    ensures name == "%{tname}" ==> out.Text() == old(out.Text()) + env.tname
    ensures name == "%{ip}" ==> out.Text() == old(out.Text()) + env.ip
    ensures name == "%{pid}" ==> out.Text() == old(out.Text()) + env.pid
    ensures name != "%{tname}" && name != "%{ip}" && name != "%{pid}" ==> out.Text() == old(out.Text())
  {
    forall body: string, other: string | "%{" + body + "}" == "%{" + other + "}"
      ensures body == other
    {
      var s := "%{" + body + "}";
      assert body == s[2..|s| - 1] && other == s[2..|s| - 1];
    }
    if name == "%{tname}" {
      assert name == "%{" + "tname" + "}";
      out.AppendString(env.tname);
    } else if name == "%{ip}" {
      assert name == "%{" + "ip" + "}";
      out.AppendString(env.ip);
    } else if name == "%{pid}" {
      assert name == "%{" + "pid" + "}";
      out.AppendString(env.pid);
    } else {
      assert forall body :: name == "%{" + body + "}" ==> Value(env, body) == "";
    }
  }

  /** The character at an index, as the loop takes it. */
  lemma NextUnit(s: string, i: nat, escaping: bool)
    requires i < |s|
    ensures Units(s[i..], escaping)
            == if s[i] == '\\' && !escaping then Units(s[i + 1..], true)
               else [Unit(s[i], escaping)] + Units(s[i + 1..], false)
  {
    assert s[i..][1..] == s[i + 1..];
  }

  lemma NothingPending(env: Env, v: string, escaping: bool)
    requires GoodName(v)
    ensures Pending(env, v, Units("", escaping)) == ""
  {
  }

  lemma PendingAtStart(env: Env, fmt: string)
    ensures ExpandTemplate(env, fmt) == "" + Pending(env, "", Units(fmt[0..], false))
  {
    assert fmt[0..] == fmt;
  }

  /** calculate_process_id: one pass over the characters.  `name` is var with its length v. */
  method CalculateProcessId(env: Env, fmt: string) returns (result: string)
    requires forall c <- fmt :: c != '\0'
    ensures result == ExpandTemplate(env, fmt)
  {
    hide Expand, Units, Pending, Value, ExpandTemplate;
    var out := new CharBuffer.Strdup("");
    var name := new CharBuffer.Null();
    var i, escaping := 0, false;
    PendingAtStart(env, fmt);
    while i < |fmt|
      invariant 0 <= i <= |fmt|
      invariant out != name && fresh(out) && fresh(name)
      invariant out.Valid() && out.Terminated() && name.Valid() && GoodName(name.Text())
      invariant ExpandTemplate(env, fmt) == out.Text() + Pending(env, name.Text(), Units(fmt[i..], escaping))
    {
      var c := fmt[i];
      i := i + 1;
      NextUnit(fmt, i - 1, escaping);
      if c == '\\' {
        if !escaping {
          escaping := true;
          continue;
        }
      }
      TakeCharacter(env, out, name, c, escaping, Units(fmt[i..], false));
      escaping := false;
    }
    assert fmt[i..] == "";
    NothingPending(env, name.Text(), escaping);
    return out.buf[..out.end];
  }

  /** The closing brace of a variable. */
  method CloseName(env: Env, out: CharBuffer, name: CharBuffer)
    requires out != name && out.Valid() && out.Terminated() && name.Valid()
    requires |name.Text()| >= 2 && name.Text()[..2] == "%{"
    modifies out, name
    ensures out.Valid() && out.Terminated() && name.Valid() && name.Text() == ""
    ensures out.Text() == old(out.Text()) + Value(env, old(name.Text())[2..])
  {
    hide Value;
    ghost var body := name.Text()[2..];
    name.AppendChar('}');
    assert name.Text() == "%{" + body + "}";
    HandleProcessSubstVar(env, out, name.buf[..name.end]);
    name.Free();
  }

  /** The switch over v, for a character that is no fresh backslash. */
  method TakeCharacter(env: Env, out: CharBuffer, name: CharBuffer, c: char, escaping: bool, ghost rest: seq<Unit>)
    requires out != name && out.Valid() && out.Terminated() && name.Valid() && GoodName(name.Text())
    modifies out, name
    ensures out.Valid() && out.Terminated() && name.Valid() && GoodName(name.Text())
    ensures old(out.Text()) + Pending(env, old(name.Text()), [Unit(c, escaping)] + rest)
            == out.Text() + Pending(env, name.Text(), rest)
  {
    hide Pending, Value, CloseAt, Expand;
    ghost var u := [Unit(c, escaping)] + rest;
    assert u[1..] == rest;
    PendingStep(env, name.Text(), u);
    if name.end == 0 {
      if c == '%' && !escaping {
        name.AppendChar('%');
        assert name.Text() == "%";
        return;
      }
    } else if name.end == 1 {
      if c == '{' && !escaping {
        name.AppendChar('{');
        assert name.Text() == "%{";
        return;
      }
      out.AppendChar('%');
    } else {
      if c == '}' && !escaping {
        CloseName(env, out, name);
        return;
      }
      name.AppendChar(c);
      return;
    }
    name.end := 0;
    out.AppendChar(c);
  }
}
