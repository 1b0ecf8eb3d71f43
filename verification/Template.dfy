/** Hook templates: text with `${name}` placeholders and `$$` for a dollar sign. */
module Template {
  import opened Wrappers

  datatype PlaceholderVar =
    | PamUser | PamService | HostId | HostIdHash | HostIdSource
    | CertCn | CertSerial | UsbSerial | UsbVidPid | SessionId

  datatype Part = Literal(text: string) | Var(v: PlaceholderVar)

  datatype ParseError = Unclosed | EmptyPlaceholder | UnknownPlaceholder(name: string)

  function Name(v: PlaceholderVar): string {
    match v
    case PamUser => "pam_user"
    case PamService => "pam_service"
    case HostId => "host_id"
    case HostIdHash => "host_id_hash"
    case HostIdSource => "host_id_source"
    case CertCn => "cert_cn"
    case CertSerial => "cert_serial"
    case UsbSerial => "usb_serial"
    case UsbVidPid => "usb_vid_pid"
    case SessionId => "session_id"
  }

  function FromName(s: string): Option<PlaceholderVar> {
    if s == "pam_user" then Some(PamUser)
    else if s == "pam_service" then Some(PamService)
    else if s == "host_id" then Some(HostId)
    else if s == "host_id_hash" then Some(HostIdHash)
    else if s == "host_id_source" then Some(HostIdSource)
    else if s == "cert_cn" then Some(CertCn)
    else if s == "cert_serial" then Some(CertSerial)
    else if s == "usb_serial" then Some(UsbSerial)
    else if s == "usb_vid_pid" then Some(UsbVidPid)
    else if s == "session_id" then Some(SessionId)
    else None
  }

  // ----------------------------------------------------------------- parsing

  /** Position of the first `c`, or the length when there is none. */
  function IndexOf(s: string, c: char): nat {
    if s == [] || s[0] == c then 0 else 1 + IndexOf(s[1..], c)
  }

  lemma {:induction false} IndexOfRange(s: string, c: char)
    ensures IndexOf(s, c) <= |s| && c !in s[..IndexOf(s, c)] && (IndexOf(s, c) < |s| ==> s[IndexOf(s, c)] == c)
  {
    if s != [] && s[0] != c {
      IndexOfRange(s[1..], c);
      assert s[..IndexOf(s, c)] == [s[0]] + s[1..][..IndexOf(s[1..], c)];
    }
  }

  function Flush(parts: seq<Part>, literal: string): seq<Part> {
    if literal != "" then parts + [Literal(literal)] else parts
  }

  datatype Placeholder = Placeholder(v: PlaceholderVar, rest: string)

  /** A placeholder's name, its closing brace and what follows. */
  function ParseName(s: string): (r: Result<Placeholder, ParseError>)
    ensures r.Ok? ==> |r.value.rest| < |s|
  {
    var close := IndexOf(s, '}');
    IndexOfRange(s, '}');
    if close == |s| then Err(Unclosed)
    else if close == 0 then Err(EmptyPlaceholder)
    else
      var v := FromName(s[..close]);
      if v.None? then Err(UnknownPlaceholder(s[..close])) else Ok(Placeholder(v.value, s[close + 1..]))
  }

  /** Parsing the rest of a template, with the literal and the parts gathered so far. */
  function ParseRest(s: string, literal: string, parts: seq<Part>): Result<seq<Part>, ParseError>
    decreases |s|
  {
    if s == [] then
      Ok(if literal != "" || parts == [] then parts + [Literal(literal)] else parts)
    else if s[0] != '$' then ParseRest(s[1..], literal + [s[0]], parts)
    else if |s| >= 2 && s[1] == '$' then ParseRest(s[2..], literal + "$", parts)
    else if |s| >= 2 && s[1] == '{' then
      var p := ParseName(s[2..]);
      if p.Err? then Err(p.error)
      else ParseRest(p.value.rest, "", Flush(parts, literal) + [Var(p.value.v)])
    else ParseRest(s[1..], literal + "$", parts)
  }

  function ParseSpec(input: string): Result<seq<Part>, ParseError> {
    ParseRest(input, "", [])
  }

  method Parse(input: string) returns (r: Result<seq<Part>, ParseError>)
    ensures r == ParseSpec(input)
  {
    var literal, parts, i := "", [], 0;
    while i < |input|
      invariant i <= |input| && ParseRest(input[i..], literal, parts) == ParseSpec(input)
    {
      var rest := input[i..];
      var ch := input[i];
      i := i + 1;
      assert rest[1..] == input[i..];
      if ch != '$' {
        literal := literal + [ch];
      } else if i < |input| && input[i] == '$' {
        i := i + 1;
        assert rest[2..] == input[i..];
        literal := literal + "$";
      } else if i < |input| && input[i] == '{' {
        i := i + 1;
        assert rest[2..] == input[i..];
        var v, next := ReadPlaceholder(input, i);
        if v.Err? {
          return Err(v.error);
        }
        i := next;
        if literal != "" {
          parts, literal := parts + [Literal(literal)], "";
        }
        parts := parts + [Var(v.value)];
      } else {
        literal := literal + "$";
      }
    }
    if literal != "" || parts == [] {
      parts := parts + [Literal(literal)];
    }
    r := Ok(parts);
  }

  /** Reads a name up to its closing brace and looks it up. */
  method ReadPlaceholder(input: string, start: nat) returns (v: Result<PlaceholderVar, ParseError>, next: nat)
    requires start <= |input|
    ensures var p := ParseName(input[start..]);
            if p.Err? then v == Err(p.error)
            else v == Ok(p.value.v) && start < next <= |input| && input[next..] == p.value.rest
  {
    var name := "";
    next := start;
    while true
      invariant start <= next <= |input| && name == input[start..next] && '}' !in name
      decreases |input| - next
    {
      if next == |input| {
        IndexOfRange(input[start..], '}');
        assert input[start..] == name;
        return Err(Unclosed), next;
      }
      if input[next] == '}' {
        break;
      }
      name := name + [input[next]];
      next := next + 1;
    }
    FoundAt(input[start..], '}', next - start);
    assert input[start..][..next - start] == name;
    next := next + 1;
    assert input[start..][|name| + 1..] == input[next..];
    if name == "" {
      return Err(EmptyPlaceholder), next;
    }
    var known := FromName(name);
    v := if known.None? then Err(UnknownPlaceholder(name)) else Ok(known.value);
  }

  lemma FoundAt(s: string, c: char, i: nat)
    requires i < |s| && s[i] == c && c !in s[..i]
    ensures IndexOf(s, c) == i
  {
    IndexOfRange(s, c);
    var k := IndexOf(s, c);
    assert forall x :: 0 <= x < k ==> s[..k][x] == s[x];
    assert forall x :: 0 <= x < i ==> s[..i][x] == s[x];
  }

  // --------------------------------------------------------------- rendering

  function RenderSpec(parts: seq<Part>, resolve: PlaceholderVar -> Option<string>): Result<string, PlaceholderVar> {
    if parts == [] then Ok("")
    else
      var before := RenderSpec(parts[..|parts| - 1], resolve);
      var last := parts[|parts| - 1];
      if before.Err? then before
      else if last.Literal? then Ok(before.value + last.text)
      else
        var value := resolve(last.v);
        if value.None? then Err(last.v) else Ok(before.value + value.value)
  }

  method Render(parts: seq<Part>, resolve: PlaceholderVar -> Option<string>) returns (r: Result<string, PlaceholderVar>)
    ensures r == RenderSpec(parts, resolve)
  {
    var out := "";
    for i := 0 to |parts|
      invariant RenderSpec(parts[..i], resolve) == Ok(out)
    {
      assert parts[..i + 1][..i] == parts[..i];
      match parts[i] {
        case Literal(s) => out := out + s;
        case Var(v) =>
          var value := resolve(v);
          if value.None? {
            RenderStops(parts, resolve, i + 1);
            return Err(v);
          }
          out := out + value.value;
      }
    }
    assert parts[..|parts|] == parts;
    r := Ok(out);
  }

  lemma {:induction false} RenderStops(parts: seq<Part>, resolve: PlaceholderVar -> Option<string>, i: nat)
    requires i <= |parts| && RenderSpec(parts[..i], resolve).Err?
    ensures RenderSpec(parts, resolve) == RenderSpec(parts[..i], resolve)
  {
    if i < |parts| {
      assert parts[..|parts| - 1][..i] == parts[..i];
      RenderStops(parts[..|parts| - 1], resolve, i);
    } else {
      assert parts[..i] == parts;
    }
  }

  // ------------------------------------------------------------- normal form

  /** No empty literal, no two literals in a row. */
  ghost predicate Tidy(parts: seq<Part>) {
    && (forall i :: 0 <= i < |parts| ==> parts[i] != Literal(""))
    && (forall i :: 0 <= i < |parts| - 1 ==> parts[i].Var? || parts[i + 1].Var?)
  }

  /** An empty literal appears only as the whole template. */
  ghost predicate Normal(parts: seq<Part>) {
    parts == [Literal("")] || (parts != [] && Tidy(parts))
  }

  lemma {:induction false} ParseRestNormal(s: string, literal: string, parts: seq<Part>)
    requires Tidy(parts) && (parts != [] ==> parts[|parts| - 1].Var?)
    ensures var r := ParseRest(s, literal, parts); r.Ok? ==> Normal(r.value)
    decreases |s|
  {
    if s == [] {
    } else if s[0] != '$' {
      ParseRestNormal(s[1..], literal + [s[0]], parts);
    } else if |s| >= 2 && s[1] == '$' {
      ParseRestNormal(s[2..], literal + "$", parts);
    } else if |s| >= 2 && s[1] == '{' {
      var p := ParseName(s[2..]);
      if p.Ok? {
        ParseRestNormal(p.value.rest, "", Flush(parts, literal) + [Var(p.value.v)]);
      }
    } else {
      ParseRestNormal(s[1..], literal + "$", parts);
    }
  }

  /** Every template that parses is in normal form. */
  lemma ParseIsNormal(input: string)
    ensures ParseSpec(input).Ok? ==> Normal(ParseSpec(input).value)
  {
    ParseRestNormal(input, "", []);
  }

  // ------------------------------------------------------------- the printer

  function EscapeChar(c: char): string {
    if c == '$' then "$$" else [c]
  }

  function Escape(s: string): string {
    if s == [] then "" else EscapeChar(s[0]) + Escape(s[1..])
  }

  function PrintPart(p: Part): string {
    match p
    case Literal(s) => Escape(s)
    case Var(v) => "${" + Name(v) + "}"
  }

  function Print(parts: seq<Part>): string {
    if parts == [] then "" else PrintPart(parts[0]) + Print(parts[1..])
  }

  lemma ParseChar(c: char, tail: string, literal: string, parts: seq<Part>)
    ensures ParseRest(EscapeChar(c) + tail, literal, parts) == ParseRest(tail, literal + [c], parts)
  {
    if c == '$' {
      assert ("$$" + tail)[2..] == tail;
    } else {
      assert ([c] + tail)[1..] == tail;
    }
  }

  lemma EscapeCons(t: string, rest: string)
    requires t != []
    ensures Escape(t) + rest == EscapeChar(t[0]) + (Escape(t[1..]) + rest)
  {
    Assoc(EscapeChar(t[0]), Escape(t[1..]), rest);
  }

  lemma LiteralCons(literal: string, t: string)
    requires t != []
    ensures literal + [t[0]] + t[1..] == literal + t
  {
    Assoc(literal, [t[0]], t[1..]);
    assert t == [t[0]] + t[1..];
  }

  lemma {:induction false} ParseEscaped(t: string, rest: string, literal: string, parts: seq<Part>)
    ensures ParseRest(Escape(t) + rest, literal, parts) == ParseRest(rest, literal + t, parts)
  {
    if t == [] {
      assert Escape(t) + rest == rest && literal + t == literal;
    } else {
      EscapeCons(t, rest);
      ParseChar(t[0], Escape(t[1..]) + rest, literal, parts);
      ParseEscaped(t[1..], rest, literal + [t[0]], parts);
      LiteralCons(literal, t);
    }
  }

  lemma NamesParse(v: PlaceholderVar)
    ensures FromName(Name(v)) == Some(v) && Name(v) != "" && '}' !in Name(v)
  {
  }

  lemma ParseVar(v: PlaceholderVar, rest: string, literal: string, parts: seq<Part>)
    ensures ParseRest("${" + Name(v) + "}" + rest, literal, parts) ==
            ParseRest(rest, "", Flush(parts, literal) + [Var(v)])
  {
    NamesParse(v);
    ParseBraced(Name(v), v, rest, literal, parts);
  }

  lemma ParseBraced(name: string, v: PlaceholderVar, rest: string, literal: string, parts: seq<Part>)
    requires FromName(name) == Some(v) && name != "" && '}' !in name
    ensures ParseRest("${" + name + "}" + rest, literal, parts) == ParseRest(rest, "", Flush(parts, literal) + [Var(v)])
  {
    var s := "${" + name + "}" + rest;
    var t := name + "}" + rest;
    assert s[2..] == t;
    assert t[..|name|] == name && t[|name| + 1..] == rest;
    FoundAt(t, '}', |name|);
  }

  lemma ParsePart(p: Part, rest: string, literal: string, done: seq<Part>)
    ensures ParseRest(PrintPart(p) + rest, literal, done) ==
            if p.Literal? then ParseRest(rest, literal + p.text, done)
            else ParseRest(rest, "", Flush(done, literal) + [p])
  {
    match p {
      case Literal(t) => ParseEscaped(t, rest, literal, done);
      case Var(v) => ParseVar(v, rest, literal, done);
    }
  }

  lemma TidyTail(parts: seq<Part>)
    requires Tidy(parts) && parts != []
    ensures Tidy(parts[1..]) && (parts[0].Literal? && |parts| > 1 ==> parts[1].Var?)
  {
    assert forall i :: 0 <= i < |parts| - 1 ==> parts[1..][i] == parts[i + 1];
  }

  lemma FlushCons(done: seq<Part>, literal: string, p: Part, tail: seq<Part>)
    requires p != Literal("") && (literal != "" ==> p.Var?)
    ensures Flush(done, literal) + ([p] + tail) ==
            if p.Literal? then Flush(done, literal + p.text) + tail
            else Flush(Flush(done, literal) + [p], "") + tail
  {
    assert Flush(done, literal) + ([p] + tail) == Flush(done, literal) + [p] + tail;
    if p.Literal? {
      assert literal + p.text == p.text;
    }
  }

  lemma {:induction false} ParsePrinted(parts: seq<Part>, literal: string, done: seq<Part>)
    requires Tidy(parts) && (literal != "" && parts != [] ==> parts[0].Var?)
    requires done != [] || parts != [] || literal != ""
    ensures ParseRest(Print(parts), literal, done) == Ok(Flush(done, literal) + parts)
    decreases |parts|
  {
    if parts == [] {
      assert Flush(done, literal) + parts == Flush(done, literal);
    } else {
      var (p, tail) := (parts[0], parts[1..]);
      TidyTail(parts);
      ParsePart(p, Print(tail), literal, done);
      FlushCons(done, literal, p, tail);
      assert parts == [p] + tail;
      if p.Literal? {
        ParsePrinted(tail, literal + p.text, done);
      } else {
        ParsePrinted(tail, "", Flush(done, literal) + [p]);
      }
    }
  }

  /** Parsing inverts printing, on every template in normal form. */
  lemma ParseInvertsPrint(parts: seq<Part>)
    requires Normal(parts)
    ensures ParseSpec(Print(parts)) == Ok(parts)
  {
    if parts == [Literal("")] {
      assert Print(parts) == "" by { assert parts[1..] == []; }
      assert [] + [Literal("")] == parts;
    } else {
      ParsePrinted(parts, "", []);
      assert [] + parts == parts;
    }
  }

  /** An escaped string parses to itself as one literal, and renders back unchanged under any resolver. */
  lemma EscapedRendersBack(s: string, resolve: PlaceholderVar -> Option<string>)
    ensures ParseSpec(Escape(s)) == Ok([Literal(s)])
    ensures RenderSpec([Literal(s)], resolve) == Ok(s)
  {
    ParseEscaped(s, "", "", []);
    assert Escape(s) + "" == Escape(s) && "" + s == s && [] + [Literal(s)] == [Literal(s)];
    assert [Literal(s)][..0] == [];
  }

  // -------------------------------------------------------- arbitrary texts

  /** What a template means: characters and variables, in order. */
  datatype Item = Ch(c: char) | Value(v: PlaceholderVar)

  function Chars(s: string): seq<Item> {
    seq(|s|, i requires 0 <= i < |s| => Ch(s[i]))
  }

  function Items(parts: seq<Part>): seq<Item> {
    if parts == [] then []
    else Items(parts[..|parts| - 1]) + if parts[|parts| - 1].Literal? then Chars(parts[|parts| - 1].text) else [Value(parts[|parts| - 1].v)]
  }

  /** How a text can be cut up: a character, an escaped dollar sign, a known placeholder. */
  datatype Token = Plain(c: char) | Escaped | Braced(v: PlaceholderVar)

  function Spell(t: Token): string {
    match t
    case Plain(c) => [c]
    case Escaped => "$$"
    case Braced(v) => "${" + Name(v) + "}"
  }

  function ItemOf(t: Token): Item {
    match t
    case Plain(c) => Ch(c)
    case Escaped => Ch('$')
    case Braced(v) => Value(v)
  }

  function SpellAll(ts: seq<Token>): string {
    if ts == [] then "" else Spell(ts[0]) + SpellAll(ts[1..])
  }

  function ItemsOf(ts: seq<Token>): seq<Item> {
    seq(|ts|, i requires 0 <= i < |ts| => ItemOf(ts[i]))
  }

  predicate Opens(s: string) {
    s != "" && (s[0] == '$' || s[0] == '{')
  }

  /** A lone dollar sign is a character only where it starts neither an escape nor a placeholder. */
  predicate Legal(ts: seq<Token>, rest: string) {
    ts == [] || (Legal(ts[1..], rest) && (ts[0] == Plain('$') ==> !Opens(SpellAll(ts[1..]) + rest)))
  }

  /** The placeholder whose name starts `tail` is at fault. */
  ghost predicate Faulty(tail: string, e: ParseError) {
    match e
    case Unclosed => '}' !in tail
    case EmptyPlaceholder => tail != "" && tail[0] == '}'
    case UnknownPlaceholder(name) =>
      name != "" && '}' !in name && name + "}" <= tail && forall v :: Name(v) != name
  }

  lemma KnownName(name: string)
    ensures FromName(name).None? <==> forall v :: Name(v) != name
  {
    if FromName(name).None? {
      forall v ensures Name(v) != name {
        NamesParse(v);
      }
    } else {
      NameOf(name);
    }
  }

  lemma NameFails(tail: string, e: ParseError)
    ensures ParseName(tail) == Err(e) <==> Faulty(tail, e)
  {
    IndexOfRange(tail, '}');
    var close := IndexOf(tail, '}');
    assert tail[..|tail|] == tail;
    if close < |tail| {
      assert tail[close] == '}';
      KnownName(tail[..close]);
      assert tail[..close] + "}" == tail[..close + 1];
    }
    if e.UnknownPlaceholder? && Faulty(tail, e) {
      var n := |e.name|;
      assert tail[..n + 1] == e.name + "}";
      assert tail[..n] == tail[..n + 1][..n] == e.name && tail[n] == tail[..n + 1][n] == '}';
      FoundAt(tail, '}', n);
    }
  }

  lemma ParseLoneDollar(rest: string, literal: string, parts: seq<Part>)
    requires !Opens(rest)
    ensures ParseRest("$" + rest, literal, parts) == ParseRest(rest, literal + "$", parts)
  {
    var s := "$" + rest;
    assert s[1..] == rest && (|s| >= 2 ==> s[1] == rest[0]);
  }

  /** The literal and the parts gathered once an item was read. */
  function Gather(x: Item, literal: string, parts: seq<Part>): (string, seq<Part>) {
    match x
    case Ch(c) => (literal + [c], parts)
    case Value(v) => ("", Flush(parts, literal) + [Var(v)])
  }

  lemma ParseToken(t: Token, rest: string, literal: string, parts: seq<Part>)
    requires t == Plain('$') ==> !Opens(rest)
    ensures var (l, p) := Gather(ItemOf(t), literal, parts);
            ParseRest(Spell(t) + rest, literal, parts) == ParseRest(rest, l, p)
  {
    match t {
      case Plain(c) =>
        if c == '$' {
          ParseLoneDollar(rest, literal, parts);
        } else {
          ParseChar(c, rest, literal, parts);
        }
      case Escaped => ParseChar('$', rest, literal, parts);
      case Braced(v) => ParseVar(v, rest, literal, parts);
    }
  }

  lemma ItemsSnoc(parts: seq<Part>, p: Part)
    ensures Items(parts + [p]) == Items(parts) + if p.Literal? then Chars(p.text) else [Value(p.v)]
  {
    assert (parts + [p])[..|parts|] == parts;
  }

  lemma GatherItems(x: Item, literal: string, parts: seq<Part>)
    ensures var (l, p) := Gather(x, literal, parts);
            Items(p) + Chars(l) == Items(parts) + Chars(literal) + [x]
  {
    match x {
      case Ch(c) => assert Chars(literal + [c]) == Chars(literal) + [Ch(c)];
      case Value(v) =>
        ItemsSnoc(parts, Literal(literal));
        ItemsSnoc(Flush(parts, literal), Var(v));
        assert literal == "" ==> Items(parts) + Chars(literal) == Items(parts);
    }
  }

  lemma SpellCons(ts: seq<Token>, rest: string)
    requires ts != []
    ensures SpellAll(ts) + rest == Spell(ts[0]) + (SpellAll(ts[1..]) + rest)
  {
    Assoc(Spell(ts[0]), SpellAll(ts[1..]), rest);
  }

  /** The parser gets past legal tokens, and has gathered exactly their items. */
  lemma {:induction false} ParsePrefix(ts: seq<Token>, rest: string, literal: string, parts: seq<Part>)
    returns (l: string, p: seq<Part>)
    requires Legal(ts, rest)
    ensures ParseRest(SpellAll(ts) + rest, literal, parts) == ParseRest(rest, l, p)
    ensures Items(p) + Chars(l) == Items(parts) + Chars(literal) + ItemsOf(ts)
    decreases |ts|
  {
    if ts == [] {
      l, p := literal, parts;
      assert SpellAll(ts) + rest == rest;
    } else {
      SpellCons(ts, rest);
      ParseToken(ts[0], SpellAll(ts[1..]) + rest, literal, parts);
      GatherItems(ItemOf(ts[0]), literal, parts);
      var (l', p') := Gather(ItemOf(ts[0]), literal, parts);
      l, p := ParsePrefix(ts[1..], rest, l', p');
      ItemsPrepend(Items(parts) + Chars(literal), ts);
    }
  }

  lemma ItemsPrepend(before: seq<Item>, ts: seq<Token>)
    requires ts != []
    ensures before + [ItemOf(ts[0])] + ItemsOf(ts[1..]) == before + ItemsOf(ts)
  {
    assert ItemsOf(ts) == [ItemOf(ts[0])] + ItemsOf(ts[1..]);
  }

  /** Every text is legal tokens up to its end or up to a faulty placeholder. */
  lemma {:induction false} Tokenise(s: string) returns (ts: seq<Token>, rest: string)
    ensures s == SpellAll(ts) + rest && Legal(ts, rest)
    ensures rest == "" || ("${" <= rest && ParseName(rest[2..]).Err?)
    decreases |s|
  {
    if s == "" || ("${" <= s && ParseName(s[2..]).Err?) {
      ts, rest := [], s;
    } else {
      var t, tail := FirstToken(s);
      ts, rest := Tokenise(tail);
      SpellCons([t] + ts, rest);
      assert ([t] + ts)[1..] == ts;
      ts := [t] + ts;
    }
  }

  lemma FirstToken(s: string) returns (t: Token, tail: string)
    requires s != "" && ("${" <= s ==> ParseName(s[2..]).Ok?)
    ensures Spell(t) + tail == s && |tail| < |s|
    ensures t == Plain('$') ==> !Opens(tail)
  {
    if s[0] != '$' || !Opens(s[1..]) {
      t, tail := Plain(s[0]), s[1..];
    } else if s[1] == '$' {
      t, tail := Escaped, s[2..];
    } else {
      assert s == "${" + s[2..];
      var p := ParseName(s[2..]).value;
      t, tail := Braced(p.v), p.rest;
      BracedReads(s[2..]);
    }
  }

  lemma BracedReads(s: string)
    requires ParseName(s).Ok?
    ensures Spell(Braced(ParseName(s).value.v)) + ParseName(s).value.rest == "${" + s
  {
    var name := NameRead(s);
    var rest := ParseName(s).value.rest;
    Assoc("${", name, "}");
    Assoc("${", name + "}", rest);
  }

  lemma NameRead(s: string) returns (name: string)
    requires ParseName(s).Ok?
    ensures name == Name(ParseName(s).value.v) && s == name + "}" + ParseName(s).value.rest
  {
    IndexOfRange(s, '}');
    var close := IndexOf(s, '}');
    name := s[..close];
    NameOf(name);
    assert s == s[..close] + [s[close]] + s[close + 1..];
  }

  lemma NameOf(name: string)
    requires FromName(name).Some?
    ensures Name(FromName(name).value) == name
  {
  }

  function Concat(pieces: seq<string>): string {
    if pieces == [] then "" else Concat(pieces[..|pieces| - 1]) + pieces[|pieces| - 1]
  }

  lemma ConcatSnoc(a: seq<string>, s: string)
    ensures Concat(a + [s]) == Concat(a) + s
  {
    assert (a + [s])[..|a|] == a;
  }

  lemma {:induction false} ConcatAppend(a: seq<string>, b: seq<string>)
    ensures Concat(a + b) == Concat(a) + Concat(b)
  {
    if b == [] {
      assert a + b == a;
    } else {
      var (init, s) := (b[..|b| - 1], b[|b| - 1]);
      ConcatAppend(a, init);
      ConcatSnoc(a + init, s);
      ConcatSnoc(init, s);
      assert b == init + [s] && a + b == a + init + [s];
      Assoc(Concat(a), Concat(init), s);
    }
  }

  function SpellItem(x: Item): string {
    if x.Ch? then EscapeChar(x.c) else "${" + Name(x.v) + "}"
  }

  function Pieces(items: seq<Item>): seq<string> {
    seq(|items|, i requires 0 <= i < |items| => SpellItem(items[i]))
  }

  function SpellItems(items: seq<Item>): string {
    Concat(Pieces(items))
  }

  lemma SpellItemsAppend(a: seq<Item>, b: seq<Item>)
    ensures SpellItems(a + b) == SpellItems(a) + SpellItems(b)
  {
    assert Pieces(a + b) == Pieces(a) + Pieces(b);
    ConcatAppend(Pieces(a), Pieces(b));
  }

  lemma SpellOne(x: Item)
    ensures SpellItems([x]) == SpellItem(x)
  {
    var s := SpellItem(x);
    assert Pieces([x]) == [s] && [s][..0] == [];
    assert Concat([s]) == "" + s == s;
  }

  lemma {:induction false} EscapeIsSpelling(t: string)
    ensures Escape(t) == SpellItems(Chars(t))
  {
    if t != [] {
      EscapeIsSpelling(t[1..]);
      assert Chars(t) == [Ch(t[0])] + Chars(t[1..]);
      SpellItemsAppend([Ch(t[0])], Chars(t[1..]));
      SpellOne(Ch(t[0]));
    }
  }

  lemma {:induction false} ItemsCons(parts: seq<Part>)
    requires parts != []
    ensures Items(parts) == Items(parts[..1]) + Items(parts[1..])
  {
    if |parts| > 1 {
      var (init, last) := (parts[..|parts| - 1], parts[|parts| - 1]);
      ItemsCons(init);
      assert init[..1] == parts[..1] && parts[1..] == init[1..] + [last] && parts == init + [last];
      ItemsSnoc(init, last);
      ItemsSnoc(init[1..], last);
      Assoc(Items(init[..1]), Items(init[1..]), if last.Literal? then Chars(last.text) else [Value(last.v)]);
    } else {
      assert parts[..1] == parts;
    }
  }

  /** What is printed depends on the meaning alone. */
  lemma {:induction false} PrintIsSpelling(parts: seq<Part>)
    ensures Print(parts) == SpellItems(Items(parts))
  {
    if parts != [] {
      PrintIsSpelling(parts[1..]);
      ItemsCons(parts);
      SpellItemsAppend(Items(parts[..1]), Items(parts[1..]));
      PrintPartIsSpelling(parts[0]);
      assert parts[..1] == [parts[0]];
    }
  }

  lemma PrintPartIsSpelling(p: Part)
    ensures PrintPart(p) == SpellItems(Items([p]))
  {
    assert [p][..0] == [];
    match p {
      case Literal(t) =>
        EscapeIsSpelling(t);
        assert Items([p]) == Chars(t);
      case Var(v) =>
        assert Items([p]) == [Value(v)];
        SpellOne(Value(v));
    }
  }

  /** So a meaning has one normal template. */
  lemma NormalIsUnique(p: seq<Part>, q: seq<Part>)
    requires Normal(p) && Normal(q) && Items(p) == Items(q)
    ensures p == q
  {
    PrintIsSpelling(p);
    PrintIsSpelling(q);
    ParseInvertsPrint(p);
    ParseInvertsPrint(q);
  }

  lemma ParseEnd(literal: string, parts: seq<Part>)
    ensures ParseRest("", literal, parts).Ok?
    ensures Items(ParseRest("", literal, parts).value) == Items(parts) + Chars(literal)
  {
    ItemsSnoc(parts, Literal(literal));
  }

  ghost predicate Readable(text: string, parts: seq<Part>) {
    exists ts :: Legal(ts, "") && SpellAll(ts) == text && ItemsOf(ts) == Items(parts)
  }

  ghost predicate Unreadable(text: string, e: ParseError) {
    exists ts, tail :: Legal(ts, "${" + tail) && text == SpellAll(ts) + ("${" + tail) && Faulty(tail, e)
  }

  /** A text of legal tokens parses, to a normal template with their meaning. */
  lemma ParseLegal(ts: seq<Token>)
    requires Legal(ts, "")
    ensures var r := ParseSpec(SpellAll(ts));
            r.Ok? && Normal(r.value) && Items(r.value) == ItemsOf(ts)
  {
    var l, p := ParsePrefix(ts, "", "", []);
    assert SpellAll(ts) + "" == SpellAll(ts);
    ParseEnd(l, p);
    ParseIsNormal(SpellAll(ts));
    assert Items([]) + Chars("") + ItemsOf(ts) == ItemsOf(ts);
  }

  /** A faulty placeholder after legal tokens is reported. */
  lemma ParseIllegal(ts: seq<Token>, tail: string, e: ParseError)
    requires Legal(ts, "${" + tail) && Faulty(tail, e)
    ensures ParseSpec(SpellAll(ts) + ("${" + tail)) == Err(e)
  {
    var rest := "${" + tail;
    var l, p := ParsePrefix(ts, rest, "", []);
    NameFails(tail, e);
    assert rest[2..] == tail;
  }

  /** The parser on every text: it succeeds or fails as the text is readable or not. */
  lemma ReadableOrNot(text: string)
    ensures match ParseSpec(text)
            case Ok(parts) => Normal(parts) && Readable(text, parts)
            case Err(e) => Unreadable(text, e)
  {
    var ts, rest := Tokenise(text);
    if rest == "" {
      assert SpellAll(ts) + "" == SpellAll(ts);
      ParseLegal(ts);
    } else {
      var tail := rest[2..];
      assert rest == "${" + tail;
      NameFails(tail, ParseName(tail).error);
      ParseIllegal(ts, tail, ParseName(tail).error);
    }
  }

  /** It succeeds exactly on the texts that are legal tokens to their end, with their meaning in
      normal form. */
  lemma ParsesExactly(text: string, parts: seq<Part>)
    ensures ParseSpec(text) == Ok(parts) <==> Normal(parts) && Readable(text, parts)
  {
    ReadableOrNot(text);
    if Normal(parts) && Readable(text, parts) {
      var ts :| Legal(ts, "") && SpellAll(ts) == text && ItemsOf(ts) == Items(parts);
      ParseLegal(ts);
      NormalIsUnique(ParseSpec(text).value, parts);
    }
  }

  /** It fails exactly on the texts where legal tokens lead up to a faulty placeholder, with the
      fault of that one. */
  lemma FailsExactly(text: string, e: ParseError)
    ensures ParseSpec(text) == Err(e) <==> Unreadable(text, e)
  {
    ReadableOrNot(text);
    if Unreadable(text, e) {
      var ts, tail :| Legal(ts, "${" + tail) && text == SpellAll(ts) + ("${" + tail) && Faulty(tail, e);
      ParseIllegal(ts, tail, e);
    }
  }

  // ---------------------------------------------------- what a rendering says

  function ValueOf(v: PlaceholderVar, resolve: PlaceholderVar -> Option<string>): string {
    var value := resolve(v);
    if value.Some? then value.value else ""
  }

  function PartText(p: Part, resolve: PlaceholderVar -> Option<string>): string {
    if p.Literal? then p.text else ValueOf(p.v, resolve)
  }

  function PartTexts(parts: seq<Part>, resolve: PlaceholderVar -> Option<string>): seq<string> {
    seq(|parts|, i requires 0 <= i < |parts| => PartText(parts[i], resolve))
  }

  ghost predicate AllResolve(parts: seq<Part>, resolve: PlaceholderVar -> Option<string>) {
    forall i :: 0 <= i < |parts| && parts[i].Var? ==> resolve(parts[i].v).Some?
  }

  /** Rendering succeeds exactly when every variable has a value, and then gives the literals and
      the values one after the other. */
  lemma {:induction false} RenderIsConcat(parts: seq<Part>, resolve: PlaceholderVar -> Option<string>)
    ensures RenderSpec(parts, resolve).Ok? <==> AllResolve(parts, resolve)
    ensures AllResolve(parts, resolve) ==> RenderSpec(parts, resolve) == Ok(Concat(PartTexts(parts, resolve)))
  {
    if parts != [] {
      var init := parts[..|parts| - 1];
      RenderIsConcat(init, resolve);
      assert forall i :: 0 <= i < |init| ==> init[i] == parts[i];
      assert AllResolve(parts, resolve) ==> AllResolve(init, resolve);
      ConcatParts(parts, resolve);
    }
  }

  lemma ConcatParts(parts: seq<Part>, resolve: PlaceholderVar -> Option<string>)
    requires parts != []
    ensures Concat(PartTexts(parts, resolve)) ==
            Concat(PartTexts(parts[..|parts| - 1], resolve)) + PartText(parts[|parts| - 1], resolve)
  {
    var texts := PartTexts(parts, resolve);
    assert texts[..|texts| - 1] == PartTexts(parts[..|parts| - 1], resolve);
  }

  function ItemText(x: Item, resolve: PlaceholderVar -> Option<string>): string {
    if x.Ch? then [x.c] else ValueOf(x.v, resolve)
  }

  function ItemTexts(items: seq<Item>, resolve: PlaceholderVar -> Option<string>): seq<string> {
    seq(|items|, i requires 0 <= i < |items| => ItemText(items[i], resolve))
  }

  lemma {:induction false} ConcatChars(s: string, resolve: PlaceholderVar -> Option<string>)
    ensures Concat(ItemTexts(Chars(s), resolve)) == s
  {
    if s != [] {
      var init := s[..|s| - 1];
      ConcatChars(init, resolve);
      var texts := ItemTexts(Chars(s), resolve);
      assert texts[..|texts| - 1] == ItemTexts(Chars(init), resolve);
      assert texts[|texts| - 1] == [s[|s| - 1]] && s == init + [s[|s| - 1]];
    }
  }

  ghost predicate ItemsResolve(items: seq<Item>, resolve: PlaceholderVar -> Option<string>) {
    forall i :: 0 <= i < |items| && items[i].Value? ==> resolve(items[i].v).Some?
  }

  lemma ItemsOfPart(p: Part, resolve: PlaceholderVar -> Option<string>)
    ensures var items := if p.Literal? then Chars(p.text) else [Value(p.v)];
            && Concat(ItemTexts(items, resolve)) == PartText(p, resolve)
            && (ItemsResolve(items, resolve) <==> AllResolve([p], resolve))
  {
    match p {
      case Literal(s) => ConcatChars(s, resolve);
      case Var(v) =>
        var (items, text) := ([Value(v)], ValueOf(v, resolve));
        assert ItemTexts(items, resolve) == [text] && [text][..0] == [];
        assert Concat([text]) == "" + text == text;
        assert items[0] == Value(v) && [p][0] == p;
    }
  }

  lemma ItemTextsAppend(a: seq<Item>, b: seq<Item>, resolve: PlaceholderVar -> Option<string>)
    ensures Concat(ItemTexts(a + b, resolve)) == Concat(ItemTexts(a, resolve)) + Concat(ItemTexts(b, resolve))
  {
    assert ItemTexts(a + b, resolve) == ItemTexts(a, resolve) + ItemTexts(b, resolve);
    ConcatAppend(ItemTexts(a, resolve), ItemTexts(b, resolve));
  }

  /** A template says what its items say. */
  lemma {:induction false} ConcatItems(parts: seq<Part>, resolve: PlaceholderVar -> Option<string>)
    ensures Concat(ItemTexts(Items(parts), resolve)) == Concat(PartTexts(parts, resolve))
    ensures ItemsResolve(Items(parts), resolve) <==> AllResolve(parts, resolve)
  {
    if parts != [] {
      var (init, last) := (parts[..|parts| - 1], parts[|parts| - 1]);
      var items := if last.Literal? then Chars(last.text) else [Value(last.v)];
      ConcatItems(init, resolve);
      ItemsOfPart(last, resolve);
      ConcatParts(parts, resolve);
      ItemTextsAppend(Items(init), items, resolve);
      ResolveAppend(Items(init), items, resolve);
      AllResolveSnoc(parts, resolve);
    }
  }

  lemma ResolveAppend(a: seq<Item>, b: seq<Item>, resolve: PlaceholderVar -> Option<string>)
    ensures ItemsResolve(a + b, resolve) <==> ItemsResolve(a, resolve) && ItemsResolve(b, resolve)
  {
    assert forall i :: 0 <= i < |a| ==> (a + b)[i] == a[i];
    assert forall i :: 0 <= i < |b| ==> (a + b)[|a| + i] == b[i];
  }

  lemma AllResolveSnoc(parts: seq<Part>, resolve: PlaceholderVar -> Option<string>)
    requires parts != []
    ensures AllResolve(parts, resolve) <==>
            AllResolve(parts[..|parts| - 1], resolve) && AllResolve([parts[|parts| - 1]], resolve)
  {
    var (init, last) := (parts[..|parts| - 1], parts[|parts| - 1]);
    assert forall i :: 0 <= i < |init| ==> init[i] == parts[i];
    assert [last][0] == last;
  }

  function TokenText(t: Token, resolve: PlaceholderVar -> Option<string>): string {
    match t
    case Plain(c) => [c]
    case Escaped => "$"
    case Braced(v) => ValueOf(v, resolve)
  }

  function TokenTexts(ts: seq<Token>, resolve: PlaceholderVar -> Option<string>): seq<string> {
    seq(|ts|, i requires 0 <= i < |ts| => TokenText(ts[i], resolve))
  }

  ghost predicate TokensResolve(ts: seq<Token>, resolve: PlaceholderVar -> Option<string>) {
    forall i :: 0 <= i < |ts| && ts[i].Braced? ==> resolve(ts[i].v).Some?
  }

  /** From text to text: a template of legal tokens renders exactly when each of its placeholders
      has a value, to its characters, one dollar sign per doubled one, and the values, in order. */
  lemma RenderParsed(ts: seq<Token>, resolve: PlaceholderVar -> Option<string>)
    requires Legal(ts, "")
    ensures ParseSpec(SpellAll(ts)).Ok?
    ensures var r := RenderSpec(ParseSpec(SpellAll(ts)).value, resolve);
            && (r.Ok? <==> TokensResolve(ts, resolve))
            && (TokensResolve(ts, resolve) ==> r == Ok(Concat(TokenTexts(ts, resolve))))
  {
    ParseLegal(ts);
    var parts := ParseSpec(SpellAll(ts)).value;
    RenderIsConcat(parts, resolve);
    ConcatItems(parts, resolve);
    TokensAsItems(ts, resolve);
  }

  lemma TokensAsItems(ts: seq<Token>, resolve: PlaceholderVar -> Option<string>)
    ensures TokenTexts(ts, resolve) == ItemTexts(ItemsOf(ts), resolve)
    ensures ItemsResolve(ItemsOf(ts), resolve) <==> TokensResolve(ts, resolve)
  {
    assert forall i :: 0 <= i < |ts| ==> ItemsOf(ts)[i] == ItemOf(ts[i]);
  }
}
