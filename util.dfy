/** The browser stand-in for Node's `util`: `format` with `%s`, `%d`, `%j`
    and `%%`, `inspect` for values that are not plain objects, `deprecate`,
    and `isPrimitive`. The host's `String()`, `Number()` and `JSON.stringify`
    conversions are parameters. */
module Util {
  import opened Wrappers
  import opened Text
  import opened Lists

  /** A JavaScript value as `inspect` and `format` tell them apart. A number
      carries its `toString()` text, a date its `toISOString()`, an error its
      `stack` and `toString()`, an object what `JSON.stringify(obj, null, 2)`
      gives (`None` when that throws). */
  datatype Value =
    | Null
    | Undefined
    | Bool(b: bool)
    | Number(text: string)
    | Str(s: string)
    | Symbol
    | Function(name: string)
    | Date(iso: string)
    | Error(stack: string, text: string)
    | Array(items: seq<Value>)
    | Object(json: Option<string>)

  // ---- inspect ----

  /** `inspect(obj)`; `None` is JavaScript's `undefined`, which a symbol gets
      because `JSON.stringify` of a symbol is `undefined`. */
  function Inspect(v: Value): Option<string>
    decreases v, 1
  {
    match v
    case Null => Some("null")
    case Undefined => Some("undefined")
    case Str(s) => Some("'" + s + "'")
    case Number(text) => Some(text)
    case Bool(b) => Some(if b then "true" else "false")
    case Function(name) => Some("[Function: " + (if name == "" then "anonymous" else name) + "]")
    case Date(iso) => Some(iso)
    case Error(stack, text) => Some(if stack != "" then stack else text)
    case Array(items) => Some("[" + Join(InspectAll(v, items), ", ") + "]")
    case Object(json) => Some(if json.Some? then json.value else "[Object]")
    case Symbol => None
  }

  /** `items.map(x => inspect(x))` as `join` sees it: `undefined` joins as
      the empty string. */
  function InspectAll(v: Value, items: seq<Value>): (r: seq<string>)
    requires forall k :: 0 <= k < |items| ==> items[k] < v
    ensures |r| == |items|
    decreases v, 0, |items|
  {
    if items == [] then []
    else [JoinText(Inspect(items[0]))] + InspectAll(v, items[1..])
  }

  function JoinText(t: Option<string>): string {
    if t.Some? then t.value else ""
  }

  /** `inspect(x)` as an element of a joined list. */
  function InspectText(x: Value): string {
    JoinText(Inspect(x))
  }

  /** Element `k` of an inspected array is the inspection of item `k`. */
  lemma {:induction false} InspectAllAt(v: Value, items: seq<Value>, k: nat)
    requires forall j :: 0 <= j < |items| ==> items[j] < v
    requires k < |items|
    ensures InspectAll(v, items)[k] == JoinText(Inspect(items[k]))
    decreases |items|
  {
    if k > 0 {
      InspectAllAt(v, items[1..], k - 1);
    }
  }

  /** `inspect` quotes strings, names `null` and `undefined`, brackets arrays
      around their items' inspections joined by `', '`, and gives text for
      every value but a symbol. */
  lemma InspectSpec(v: Value)
    ensures Inspect(v).None? <==> v.Symbol?
    ensures v.Str? ==> Inspect(v) == Some("'" + v.s + "'")
    ensures v.Null? ==> Inspect(v) == Some("null")
    ensures v.Undefined? ==> Inspect(v) == Some("undefined")
    ensures v.Array? ==> exists parts: seq<string> ::
      |parts| == |v.items| && Inspect(v) == Some("[" + Join(parts, ", ") + "]")
      && forall k :: 0 <= k < |parts| ==> parts[k] == JoinText(Inspect(v.items[k]))
  {
    if v.Array? {
      var parts := InspectAll(v, v.items);
      forall k | 0 <= k < |parts| ensures parts[k] == JoinText(Inspect(v.items[k])) {
        InspectAllAt(v, v.items, k);
      }
    }
  }

  // ---- format ----

  /** The host conversions `format` applies: `String(x)`, `String(Number(x))`
      and `JSON.stringify(x)` (`None` when it throws). */
  datatype Host = Host(text: Value -> string, number: Value -> string, json: Value -> Option<string>)

  /** The replacement of placeholder `%c` by argument `arg`. */
  function Convert(c: char, arg: Value, host: Host): string {
    if c == 's' then host.text(arg)
    else if c == 'd' then host.number(arg)
    else match host.json(arg)
      case Some(t) => t
      case None => "[Circular]"
  }

  /** Whether `s` starts with a match of `/%[sdj%]/`. */
  predicate AtPlaceholder(s: string) {
    |s| >= 2 && s[0] == '%' && (s[1] == 's' || s[1] == 'd' || s[1] == 'j' || s[1] == '%')
  }

  /** `f.replace(/(%[sdj%])/g, ...)` with the counter at `i`: the replaced
      text and the counter afterwards. Matches are found left to right without
      overlap. */
  function Subst(f: string, args: seq<Value>, i: nat, host: Host): (string, nat)
    decreases |f|
  {
    if f == [] then ("", i)
    else if AtPlaceholder(f) then
      if f[1] == '%' || i >= |args| then
        var rest := Subst(f[2..], args, i, host);
        (f[..2] + rest.0, rest.1)
      else
        var rest := Subst(f[2..], args, i + 1, host);
        (Convert(f[1], args[i], host) + rest.0, rest.1)
    else
      var rest := Subst(f[1..], args, i, host);
      ([f[0]] + rest.0, rest.1)
  }

  /** Whether the replacement reaches a `%d` whose argument is a symbol, for
      which `Number()` throws a `TypeError`. */
  predicate SymbolAsNumber(f: string, args: seq<Value>, i: nat)
    decreases |f|
  {
    if f == [] then false
    else if AtPlaceholder(f) then
      if f[1] == '%' || i >= |args| then SymbolAsNumber(f[2..], args, i)
      else (f[1] == 'd' && args[i].Symbol?) || SymbolAsNumber(f[2..], args, i + 1)
    else SymbolAsNumber(f[1..], args, i)
  }

  /** The number of `%s`, `%d` and `%j` matches in `f`. */
  function Placeholders(f: string): nat
    decreases |f|
  {
    if f == [] then 0
    else if AtPlaceholder(f) then (if f[1] == '%' then 0 else 1) + Placeholders(f[2..])
    else Placeholders(f[1..])
  }

  function Min(a: int, b: int): int {
    if a < b then a else b
  }

  /** The counter advances once per placeholder until the arguments run
      out. */
  lemma {:induction false} SubstCounter(f: string, args: seq<Value>, i: nat, host: Host)
    ensures Subst(f, args, i, host).1 == if i >= |args| then i else Min(i + Placeholders(f), |args|)
    decreases |f|
  {
    if f == [] {
    } else if AtPlaceholder(f) {
      if f[1] == '%' || i >= |args| {
        SubstCounter(f[2..], args, i, host);
      } else {
        SubstCounter(f[2..], args, i + 1, host);
      }
    } else {
      SubstCounter(f[1..], args, i, host);
    }
  }

  /** Once the arguments are used up, the text comes back unchanged: `%%`
      and surplus placeholders stay verbatim. */
  lemma {:induction false} SubstVerbatim(f: string, args: seq<Value>, i: nat, host: Host)
    requires i >= |args|
    ensures Subst(f, args, i, host) == (f, i) && !SymbolAsNumber(f, args, i)
    decreases |f|
  {
    if f == [] {
    } else if AtPlaceholder(f) {
      SubstVerbatim(f[2..], args, i, host);
      assert f[..2] + f[2..] == f;
    } else {
      SubstVerbatim(f[1..], args, i, host);
      assert [f[0]] + f[1..] == f;
    }
  }

  /** Text without `%` is left as it is. */
  lemma {:induction false} SubstPlain(f: string, args: seq<Value>, i: nat, host: Host)
    requires forall k :: 0 <= k < |f| ==> f[k] != '%'
    ensures Subst(f, args, i, host) == (f, i) && !SymbolAsNumber(f, args, i)
    decreases |f|
  {
    if f != [] {
      SubstPlain(f[1..], args, i, host);
      assert [f[0]] + f[1..] == f;
    }
  }

  /** Only the arguments from position `i` on are read. */
  lemma {:induction false} SubstReadsFrom(f: string, args: seq<Value>, other: seq<Value>, i: nat, host: Host)
    requires |args| == |other| && forall k :: i <= k < |args| ==> args[k] == other[k]
    ensures Subst(f, args, i, host) == Subst(f, other, i, host)
    ensures SymbolAsNumber(f, args, i) == SymbolAsNumber(f, other, i)
    decreases |f|
  {
    if f == [] {
    } else if AtPlaceholder(f) {
      if f[1] == '%' || i >= |args| {
        SubstReadsFrom(f[2..], args, other, i, host);
      } else {
        SubstReadsFrom(f[2..], args, other, i + 1, host);
      }
    } else {
      SubstReadsFrom(f[1..], args, other, i, host);
    }
  }

  /** `format(f, ...args)`: a non-string `f` is dropped and the arguments are
      inspected and joined by spaces; otherwise placeholders are replaced
      from `args[1]` on, a `%d` that meets a symbol throws a `TypeError`, and
      an argument left over makes the trailing loop assign to the constant
      `str`, which throws a `TypeError` too. */
  function FormatOf(f: Value, args: seq<Value>, host: Host): Result<string> {
    if !f.Str? then Ok(Join(Map(InspectText, args), " "))
    else
      var (str, i) := Subst(f.s, args, 1, host);
      if SymbolAsNumber(f.s, args, 1) || i < |args| then Err(TypeError) else Ok(str)
  }

  /** `format` throws exactly when a `%d` meets a symbol or the string has
      fewer placeholders than the arguments after the first. */
  lemma FormatThrows(f: string, args: seq<Value>, host: Host)
    ensures FormatOf(Str(f), args, host).Err? <==>
      SymbolAsNumber(f, args, 1) || 1 + Placeholders(f) < |args|
  {
    SubstCounter(f, args, 1, host);
  }

  /** Only a `%d` whose argument is a symbol makes the replacement throw. */
  lemma {:induction false} SymbolAsNumberNeedsSymbol(f: string, args: seq<Value>, i: nat)
    requires SymbolAsNumber(f, args, i)
    ensures exists k :: i <= k < |args| && args[k].Symbol?
    decreases |f|
  {
    if AtPlaceholder(f) {
      if f[1] == '%' || i >= |args| {
        SymbolAsNumberNeedsSymbol(f[2..], args, i);
      } else if !(f[1] == 'd' && args[i].Symbol?) {
        SymbolAsNumberNeedsSymbol(f[2..], args, i + 1);
      }
    } else {
      SymbolAsNumberNeedsSymbol(f[1..], args, i);
    }
  }

  /** Without symbols among the arguments, `format` throws exactly when the
      string has fewer placeholders than the arguments after the first. */
  lemma FormatThrowsWithoutSymbols(f: string, args: seq<Value>, host: Host)
    requires forall k :: 0 <= k < |args| ==> !args[k].Symbol?
    ensures FormatOf(Str(f), args, host).Err? <==> 1 + Placeholders(f) < |args|
  {
    FormatThrows(f, args, host);
    if SymbolAsNumber(f, args, 1) {
      SymbolAsNumberNeedsSymbol(f, args, 1);
    }
  }

  /** A symbol passed to a `%d` makes `format` throw. */
  lemma FormatSymbolNumber(pre: string, post: string, a: Value, host: Host)
    requires forall k :: 0 <= k < |pre| ==> pre[k] != '%'
    ensures FormatOf(Str(pre + "%d" + post), [a, Symbol], host) == Err(TypeError)
  {
    var rest := "%d" + post;
    assert AtPlaceholder(rest) && rest[1] == 'd';
    assert SymbolAsNumber(rest, [a, Symbol], 1);
    SymbolAsNumberPrefix(pre, rest, [a, Symbol], 1);
    assert pre + "%d" + post == pre + rest;
  }

  /** Text without `%` in front does not change what the rest meets. */
  lemma {:induction false} SymbolAsNumberPrefix(pre: string, rest: string, args: seq<Value>, i: nat)
    requires forall k :: 0 <= k < |pre| ==> pre[k] != '%'
    ensures SymbolAsNumber(pre + rest, args, i) == SymbolAsNumber(rest, args, i)
    decreases |pre|
  {
    if pre != [] {
      assert (pre + rest)[1..] == pre[1..] + rest;
      SymbolAsNumberPrefix(pre[1..], rest, args, i);
    } else {
      assert pre + rest == rest;
    }
  }

  /** With at most one argument the string comes back unchanged. */
  lemma FormatVerbatim(f: string, args: seq<Value>, host: Host)
    requires |args| <= 1
    ensures FormatOf(Str(f), args, host) == Ok(f)
  {
    SubstVerbatim(f, args, 1, host);
  }

  /** The first argument is never used. */
  lemma FormatSkipsFirst(f: string, a: Value, b: Value, rest: seq<Value>, host: Host)
    ensures FormatOf(Str(f), [a] + rest, host) == FormatOf(Str(f), [b] + rest, host)
  {
    SubstReadsFrom(f, [a] + rest, [b] + rest, 1, host);
  }

  /** A string without `%` is returned as it is unless arguments are left
      over. */
  lemma FormatPlain(f: string, args: seq<Value>, host: Host)
    requires forall k :: 0 <= k < |f| ==> f[k] != '%'
    ensures FormatOf(Str(f), args, host) == if |args| > 1 then Err(TypeError) else Ok(f)
  {
    SubstPlain(f, args, 1, host);
  }

  /** For a non-string first argument, what it is plays no part and nothing
      throws. */
  lemma FormatNonString(f: Value, g: Value, args: seq<Value>, host: Host)
    requires !f.Str? && !g.Str?
    ensures FormatOf(f, args, host) == FormatOf(g, args, host) && FormatOf(f, args, host).Ok?
  {
  }

  /** One match of the replacement at position `p` of `s`: a placeholder
      with the counter at `i`, or a single other character. */
  method ReplaceStep(s: string, args: seq<Value>, host: Host, p: nat, i: nat)
    returns (piece: string, next: nat, i': nat, throws: bool)
    requires p < |s|
    ensures p < next <= |s|
    ensures var (rest, j) := Subst(s[next..], args, i', host);
      Subst(s[p..], args, i, host) == (piece + rest, j)
    ensures SymbolAsNumber(s[p..], args, i) == (throws || SymbolAsNumber(s[next..], args, i'))
  {
    var t := s[p..];
    throws := false;
    if AtPlaceholder(t) {
      next := p + 2;
      assert t[2..] == s[next..];
      if s[p + 1] == '%' || i >= |args| {
        piece, i' := s[p..next], i;
        assert t[..2] == piece;
      } else {
        throws := s[p + 1] == 'd' && args[i].Symbol?;
        piece, i' := Convert(s[p + 1], args[i], host), i + 1;
      }
    } else {
      piece, next, i' := [s[p]], p + 1, i;
      assert t[1..] == s[next..] && [t[0]] == piece;
    }
  }

  /** The `replace` callback run over the format string `s`, with the
      counter `i` it mutates, starting at the second argument; a `TypeError`
      when a `%d` meets a symbol. */
  method Replace(s: string, args: seq<Value>, host: Host) returns (r: Result<(string, nat)>)
    ensures r.Err? <==> SymbolAsNumber(s, args, 1)
    ensures r.Err? ==> r.error == TypeError
    ensures r.Ok? ==> r.value == Subst(s, args, 1, host)
  {
    var i := 1;
    var str := "";
    var p := 0;
    assert s[p..] == s && "" + Subst(s, args, 1, host).0 == Subst(s, args, 1, host).0;
    while p < |s|
      invariant 0 <= p <= |s|
      invariant str + Subst(s[p..], args, i, host).0 == Subst(s, args, 1, host).0
      invariant Subst(s[p..], args, i, host).1 == Subst(s, args, 1, host).1
      invariant SymbolAsNumber(s[p..], args, i) == SymbolAsNumber(s, args, 1)
      decreases |s| - p
    {
      var piece, next, i', throws := ReplaceStep(s, args, host, p, i);
      if throws {
        return Err(TypeError);
      }
      assert str + piece + Subst(s[next..], args, i', host).0 == str + (piece + Subst(s[next..], args, i', host).0);
      str, p, i := str + piece, next, i';
    }
    assert s[p..] == [];
    assert Subst(s[p..], args, i, host) == ("", i);
    assert str + "" == str;
    r := Ok((str, i));
  }

  /** `format(f, ...args)`: the replacement followed by the trailing loop's
      first test. */
  method Format(f: Value, args: seq<Value>, host: Host) returns (r: Result<string>)
    ensures r == FormatOf(f, args, host)
  {
    if !f.Str? {
      return Ok(Join(Map(InspectText, args), " "));
    }
    var replaced := Replace(f.s, args, host);
    if replaced.Err? {
      return Err(TypeError);
    }
    var (str, i) := replaced.value;
    if i < |args| {
      return Err(TypeError);
    }
    r := Ok(str);
  }

  // ---- deprecate and isPrimitive ----

  /** The wrapper `deprecate(fn, msg)` returns, with its captured `warned`
      flag; `warnings` is what it has sent to `console.warn`. */
  class Deprecated {
    const fn: seq<Value> -> Value
    const msg: string
    var warned: bool
    var warnings: seq<string>

    /** At most one warning, sent exactly when `warned` is set. */
    predicate Valid()
      reads this
    {
      (warned ==> warnings == [msg]) && (!warned ==> warnings == [])
    }

    constructor (fn: seq<Value> -> Value, msg: string)
      ensures Valid() && !warned && this.fn == fn && this.msg == msg
    {
      this.fn := fn;
      this.msg := msg;
      warned := false;
      warnings := [];
    }

    /** A call warns the first time only and always forwards to `fn`. */
    method Call(args: seq<Value>) returns (r: Value)
      requires Valid()
      modifies this
      ensures Valid() && warned && r == fn(args)
      ensures warnings == if old(warned) then old(warnings) else old(warnings) + [msg]
    {
      if !warned {
        warnings := warnings + [msg];
        warned := true;
      }
      r := fn(args);
    }
  }

  /** Any number of calls through one wrapper warn once and return what `fn`
      returns for each. */
  method CallMany(fn: seq<Value> -> Value, msg: string, calls: seq<seq<Value>>) returns (results: seq<Value>, warnings: seq<string>)
    ensures |results| == |calls| && forall k :: 0 <= k < |calls| ==> results[k] == fn(calls[k])
    ensures warnings == if calls == [] then [] else [msg]
  {
    var d := new Deprecated(fn, msg);
    results := [];
    var k := 0;
    while k < |calls|
      invariant 0 <= k <= |calls| && d.Valid() && d.fn == fn && d.msg == msg
      invariant d.warned <==> k > 0
      invariant |results| == k && forall j :: 0 <= j < k ==> results[j] == fn(calls[j])
    {
      var r := d.Call(calls[k]);
      results := results + [r];
      k := k + 1;
    }
    warnings := d.warnings;
  }

  /** `typeof v`. */
  function TypeOf(v: Value): string {
    match v
    case Undefined => "undefined"
    case Bool(_) => "boolean"
    case Number(_) => "number"
    case Str(_) => "string"
    case Symbol => "symbol"
    case Function(_) => "function"
    case _ => "object"
  }

  /** `isObject(o)`. */
  predicate IsObject(v: Value) {
    TypeOf(v) == "object" && !v.Null?
  }

  /** `isFunction(f)`. */
  predicate IsFunction(v: Value) {
    TypeOf(v) == "function"
  }

  /** `isPrimitive(p)`. */
  predicate IsPrimitive(v: Value) {
    v.Null? || v.Undefined? || v.Bool? || v.Number? || v.Str? || v.Symbol?
  }

  /** The primitives are exactly the values for which `isObject` and
      `isFunction` are both false. */
  lemma IsPrimitiveSpec(v: Value)
    ensures IsPrimitive(v) <==> !IsObject(v) && !IsFunction(v)
  {
  }
}
