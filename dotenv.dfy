/**
 * The `.env` loader run when the web application starts: after decoding, NUL
 * characters are removed, the text is cut into lines, and every line that
 * holds `=` and is not a comment assigns one environment variable.
 *
 * The process environment is a `map<string, string>`. Assigning the empty
 * name makes `os.environ` raise; the loader's
 * surrounding `try` then abandons the remaining lines, which the model
 * reports as `completed == false`.
 */
module DotEnv {
  import opened Wrappers
  import opened PyStr

  datatype Binding = Binding(key: string, value: string)

  /** The value as written after `=`: trimmed, then `"` and then `'` stripped from both ends. */
  function Unquote(raw: string): (v: string)
    ensures |v| <= |raw|
    ensures v == [] || (v[0] != '\'' && v[|v| - 1] != '\'')
  {
    StripChar(StripChar(Strip(raw), '"'), '\'')
  }

  /** The binding written on a trimmed line: the trimmed text before its first `=`, and the unquoted rest. */
  function BindingOf(s: string): (b: Binding)
    requires '=' in s
    ensures '=' !in b.key
    ensures b.key == [] || (!IsSpace(b.key[0]) && !IsSpace(b.key[|b.key| - 1]))
  {
    var i := IndexOf(s, '=');
    var key := Strip(s[..i]);
    assert '=' !in key by {
      if '=' in key {
        StripWhereFrom(s[..i], IsSpace, '=');
      }
    }
    Binding(key, Unquote(s[i + 1..]))
  }

  /** One line of the file: a binding when it holds `=` and its trimmed form does not start with `#`. */
  function ParseLine(line: string): (r: Option<Binding>)
    ensures r.Some? <==> '=' in line && !StartsWith(Strip(line), "#")
    ensures r.Some? ==> '=' !in r.value.key
    ensures r.Some? ==> r.value.key == [] || (!IsSpace(r.value.key[0]) && !IsSpace(r.value.key[|r.value.key| - 1]))
  {
    if '=' in line && !StartsWith(Strip(line), "#") then
      StripWhereKeeps(line, IsSpace, '=');
      Some(BindingOf(Strip(line)))
    else None
  }

  /** Each line of the file, parsed. */
  function ParseLines(lines: seq<string>): (ps: seq<Option<Binding>>)
    ensures |ps| == |lines|
  {
    if lines == [] then [] else [ParseLine(lines[0])] + ParseLines(lines[1..])
  }

  lemma {:induction false} ParseLinesAt(lines: seq<string>, i: nat)
    requires i < |lines|
    ensures ParseLines(lines)[i] == ParseLine(lines[i])
  {
    if i > 0 {
      ParseLinesAt(lines[1..], i - 1);
    }
  }

  /**
   * The loop over the parsed lines: each binding overwrites the variable it
   * names; an empty name stops the loop with the assignments made so far.
   */
  function ApplyLines(env: map<string, string>, ps: seq<Option<Binding>>): (r: (map<string, string>, bool))
    ensures r.1 ==> forall k :: k in env ==> k in r.0
    decreases |ps|
  {
    if ps == [] then (env, true)
    else
      match ps[0]
      case None => ApplyLines(env, ps[1..])
      case Some(b) =>
        if b.key == [] then (env, false)
        else ApplyLines(env[b.key := b.value], ps[1..])
  }

  /** One step of the loop, at line `i`. */
  lemma ApplyLinesStep(env: map<string, string>, ps: seq<Option<Binding>>, i: nat)
    requires i < |ps|
    ensures ApplyLines(env, ps[i..]) ==
              match ps[i]
              case None => ApplyLines(env, ps[i + 1..])
              case Some(b) => if b.key == [] then (env, false) else ApplyLines(env[b.key := b.value], ps[i + 1..])
  {
    assert ps[i..][1..] == ps[i + 1..];
  }

  /** The whole loader over already-decoded file content. */
  function Load(content: string, env: map<string, string>): (map<string, string>, bool) {
    ApplyLines(env, ParseLines(SplitLines(RemoveChar(content, '\0'))))
  }

  /** The loader as the program runs it: one pass over the lines, writing into the environment. */
  method LoadDotEnv(content: string, env0: map<string, string>) returns (env: map<string, string>, completed: bool)
    ensures (env, completed) == Load(content, env0)
  {
    var lines := SplitLines(RemoveChar(content, '\0'));
    ghost var ps := ParseLines(lines);
    env := env0;
    completed := true;
    var i := 0;
    while i < |lines| && completed
      invariant 0 <= i <= |lines|
      invariant Load(content, env0) == (if completed then ApplyLines(env, ps[i..]) else (env, false))
    {
      ParseLinesAt(lines, i);
      ApplyLinesStep(env, ps, i);
      match ParseLine(lines[i]) {
        case None =>
        case Some(b) =>
          if b.key == [] {
            completed := false;
          } else {
            env := env[b.key := b.value];
          }
      }
      i := i + 1;
    }
  }

  // ---------------------------------------------------------------------------
  // Which bindings a file yields, and which one wins.
  // ---------------------------------------------------------------------------

  /** The bindings among the parsed lines, in file order. */
  function Bindings(ps: seq<Option<Binding>>): (bs: seq<Binding>)
    ensures |bs| <= |ps|
  {
    if ps == [] then []
    else
      match ps[0]
      case None => Bindings(ps[1..])
      case Some(b) => [b] + Bindings(ps[1..])
  }

  /** Assigning each binding in turn. */
  function Assign(env: map<string, string>, bs: seq<Binding>): map<string, string>
    decreases |bs|
  {
    if bs == [] then env else Assign(env[bs[0].key := bs[0].value], bs[1..])
  }

  /** The value of the last binding of `k`, if any. */
  function LastValue(bs: seq<Binding>, k: string): (r: Option<string>)
    ensures r.None? <==> forall i :: 0 <= i < |bs| ==> bs[i].key != k
    ensures r.Some? ==> exists i :: 0 <= i < |bs| && bs[i] == Binding(k, r.value)
  {
    if bs == [] then None
    else if bs[|bs| - 1].key == k then Some(bs[|bs| - 1].value)
    else LastValue(bs[..|bs| - 1], k)
  }

  predicate NoEmptyKey(bs: seq<Binding>) {
    forall i :: 0 <= i < |bs| ==> bs[i].key != []
  }

  /** When no line names the empty variable, the loop completes and performs exactly the file's bindings. */
  lemma {:induction false} ApplyLinesIsAssign(env: map<string, string>, ps: seq<Option<Binding>>)
    requires NoEmptyKey(Bindings(ps))
    ensures ApplyLines(env, ps) == (Assign(env, Bindings(ps)), true)
    decreases |ps|
  {
    if ps != [] {
      match ps[0] {
        case None =>
          ApplyLinesIsAssign(env, ps[1..]);
        case Some(b) =>
          assert Bindings(ps)[0] == b;
          assert Bindings(ps)[1..] == Bindings(ps[1..]);
          ApplyLinesIsAssign(env[b.key := b.value], ps[1..]);
      }
    }
  }

  /** A line naming the empty variable stops the loop: no later line has any effect. */
  lemma {:induction false} EmptyKeyStops(env: map<string, string>, ps: seq<Option<Binding>>, j: nat)
    requires j < |ps| && ps[j].Some? && ps[j].value.key == []
    ensures !ApplyLines(env, ps).1
    ensures ApplyLines(env, ps) == ApplyLines(env, ps[..j + 1])
    decreases j
  {
    if j > 0 {
      assert ps[1..][..j] == ps[..j + 1][1..];
      match ps[0] {
        case None =>
          EmptyKeyStops(env, ps[1..], j - 1);
        case Some(b) =>
          if b.key != [] {
            EmptyKeyStops(env[b.key := b.value], ps[1..], j - 1);
          }
      }
    }
  }

  /** Later lines overwrite earlier ones: each variable ends with its last binding, and the rest keep their values. */
  lemma {:induction false} LastBindingWins(env: map<string, string>, bs: seq<Binding>, k: string)
    ensures var r := Assign(env, bs);
            match LastValue(bs, k)
            case Some(v) => k in r && r[k] == v
            case None => (k in r <==> k in env) && (k in env ==> r[k] == env[k])
    decreases |bs|
  {
    if bs != [] {
      var last := bs[|bs| - 1];
      var init := bs[..|bs| - 1];
      AssignSnoc(env, init, last);
      assert bs == init + [last];
      LastBindingWins(env, init, k);
    }
  }

  lemma {:induction false} AssignSnoc(env: map<string, string>, bs: seq<Binding>, b: Binding)
    ensures Assign(env, bs + [b]) == Assign(env, bs)[b.key := b.value]
    decreases |bs|
  {
    if bs == [] {
      assert [b][1..] == [];
    } else {
      assert (bs + [b])[1..] == bs[1..] + [b];
      AssignSnoc(env[bs[0].key := bs[0].value], bs[1..], b);
    }
  }

  // ---------------------------------------------------------------------------
  // Where keys and values come from.
  // ---------------------------------------------------------------------------

  /** Every character of a parsed name or value occurs in its line. */
  lemma ParsedFromLine(line: string, c: char)
    requires ParseLine(line).Some?
    requires c in ParseLine(line).value.key || c in ParseLine(line).value.value
    ensures c in line
  {
    var s := Strip(line);
    var i := IndexOf(s, '=');
    var b := ParseLine(line).value;
    if c in b.key {
      assert b.key == Strip(s[..i]);
      StripWhereFrom(s[..i], IsSpace, c);
      InPrefix(s, i, c);
    } else {
      var raw := s[i + 1..];
      var t := StripChar(Strip(raw), '"');
      assert b.value == StripChar(t, '\'');
      StripWhereFrom(t, Is('\''), c);
      StripWhereFrom(Strip(raw), Is('"'), c);
      StripWhereFrom(raw, IsSpace, c);
      InSuffix(s, i + 1, c);
    }
    StripWhereFrom(line, IsSpace, c);
  }

  /** No name or value the loader assigns holds a NUL character. */
  lemma NoNulAssigned(content: string, j: nat)
    requires j < |Bindings(ParseLines(SplitLines(RemoveChar(content, '\0'))))|
    ensures var b := Bindings(ParseLines(SplitLines(RemoveChar(content, '\0'))))[j];
            '\0' !in b.key && '\0' !in b.value
  {
    var text := RemoveChar(content, '\0');
    var lines := SplitLines(text);
    var ps := ParseLines(lines);
    forall k | 0 <= k < |ps| && ps[k].Some?
      ensures '\0' !in ps[k].value.key && '\0' !in ps[k].value.value
    {
      ParseLinesAt(lines, k);
      if '\0' in ps[k].value.key || '\0' in ps[k].value.value {
        ParsedFromLine(lines[k], '\0');
        SplitLinesFrom(text, k, '\0');
      }
    }
    BindingFromParsed(ps, j);
  }

  lemma {:induction false} BindingFromParsed(ps: seq<Option<Binding>>, j: nat)
    requires j < |Bindings(ps)|
    requires forall k :: 0 <= k < |ps| && ps[k].Some? ==> '\0' !in ps[k].value.key && '\0' !in ps[k].value.value
    ensures '\0' !in Bindings(ps)[j].key && '\0' !in Bindings(ps)[j].value
    decreases |ps|
  {
    match ps[0] {
      case None =>
        BindingFromParsed(ps[1..], j);
      case Some(b) =>
        if j > 0 {
          BindingFromParsed(ps[1..], j - 1);
        }
    }
  }

  // ---------------------------------------------------------------------------
  // Writing a file and loading it back.
  // ---------------------------------------------------------------------------

  /** A binding that survives being written as `key=value` and read back. */
  predicate Writable(b: Binding) {
    var k := b.key;
    var v := b.value;
    && k != [] && k[0] != '#' && !IsSpace(k[0]) && !IsSpace(k[|k| - 1])
    && '=' !in k && '\0' !in k && '\0' !in v
    && NoLineBreak(k) && NoLineBreak(v)
    && (v == [] || (!IsSpace(v[0]) && !IsSpace(v[|v| - 1])))
    && (v == [] || (v[0] != '"' && v[|v| - 1] != '"' && v[0] != '\'' && v[|v| - 1] != '\''))
  }

  /** The line `key=value`. */
  function Line(b: Binding): string {
    b.key + "=" + b.value
  }

  /** A file holding one `key=value` line per binding, each ended by `\n`. */
  function Render(bs: seq<Binding>): string
    decreases |bs|
  {
    if bs == [] then "" else Line(bs[0]) + "\n" + Render(bs[1..])
  }

  /** The parse of a line whose trimmed form is `s`, with its first `=` at `i`. */
  lemma ParseLineAt(line: string, s: string, i: nat)
    requires Strip(line) == s && i < |s| && s[i] == '='
    requires forall k :: 0 <= k < i ==> s[k] != '='
    requires s[0] != '#'
    ensures ParseLine(line) == Some(Binding(Strip(s[..i]), Unquote(s[i + 1..])))
  {
    ParseLineGuard(line, s, i);
    assert ParseLine(line) == Some(BindingOf(s));
    BindingOfAt(s, i);
  }

  lemma BindingOfAt(s: string, i: nat)
    requires i < |s| && s[i] == '='
    requires forall k :: 0 <= k < i ==> s[k] != '='
    ensures BindingOf(s) == Binding(Strip(s[..i]), Unquote(s[i + 1..]))
  {
    IndexOfAt(s, '=', i);
  }

  lemma ParseLineGuard(line: string, s: string, i: nat)
    requires Strip(line) == s && i < |s| && s[i] == '=' && s[0] != '#'
    ensures '=' in line && !StartsWith(Strip(line), "#")
  {
    StripWhereFrom(line, IsSpace, '=');
    assert s[..1] == [s[0]];
  }

  /** `Unquote` leaves a value alone that has no space or quote at either end. */
  lemma UnquotePlain(v: string)
    requires v == [] || (!IsSpace(v[0]) && !IsSpace(v[|v| - 1]))
    requires v == [] || (v[0] != '"' && v[|v| - 1] != '"' && v[0] != '\'' && v[|v| - 1] != '\'')
    ensures Unquote(v) == v
  {
    StripWhereNoop(v, IsSpace);
    StripWhereNoop(v, Is('"'));
    StripWhereNoop(v, Is('\''));
  }

  /** The parse of `k=raw` for a name `k` without `=` that does not start a comment. */
  lemma ParseLineOf(k: string, raw: string)
    requires k != [] && k[0] != '#' && !IsSpace(k[0]) && '=' !in k
    requires raw == [] || !IsSpace(raw[|raw| - 1])
    ensures ParseLine(k + "=" + raw) == Some(Binding(Strip(k), Unquote(raw)))
  {
    var line := k + "=" + raw;
    assert line[0] == k[0];
    assert line[|line| - 1] == if raw == [] then '=' else raw[|raw| - 1];
    StripWhereNoop(line, IsSpace);
    assert forall j :: 0 <= j < |k| ==> line[j] == k[j];
    assert line[..|k|] == k;
    assert line[|k| + 1..] == raw;
    ParseLineAt(line, line, |k|);
  }

  /** Reading a written line gives back its binding. */
  lemma ParseWritten(b: Binding)
    requires Writable(b)
    ensures ParseLine(Line(b)) == Some(b)
  {
    StripWhereNoop(b.key, IsSpace);
    UnquotePlain(b.value);
    ParseLineOf(b.key, b.value);
  }

  /** Inside double quotes `Unquote` keeps the spaces. */
  lemma UnquoteQuoted(v: string)
    requires v == [] || (v[0] != '"' && v[|v| - 1] != '"' && v[0] != '\'' && v[|v| - 1] != '\'')
    ensures Unquote("\"" + v + "\"") == v
  {
    var raw := "\"" + v + "\"";
    assert raw == ['"'] + v + ['"'];
    StripWhereNoop(raw, IsSpace);
    StripCharEnclosed(v, '"');
    StripWhereNoop(v, Is('\''));
  }

  lemma LineHasNoBreak(b: Binding)
    requires NoLineBreak(b.key) && NoLineBreak(b.value)
    ensures NoLineBreak(Line(b))
  {
    var line := Line(b);
    forall i | 0 <= i < |line| ensures !IsLineBreak(line[i]) {
      if i < |b.key| {
        assert line[i] == b.key[i];
      } else if i > |b.key| {
        assert line[i] == b.value[i - |b.key| - 1];
      }
    }
  }

  /** The lines of the written file. */
  function Lines(bs: seq<Binding>): (lines: seq<string>)
    ensures |lines| == |bs|
  {
    if bs == [] then [] else [Line(bs[0])] + Lines(bs[1..])
  }

  /** Cutting the written file into lines gives back the written lines. */
  lemma {:induction false} SplitRendered(bs: seq<Binding>)
    requires forall i :: 0 <= i < |bs| ==> NoLineBreak(bs[i].key) && NoLineBreak(bs[i].value)
    ensures SplitLines(Render(bs)) == Lines(bs)
    decreases |bs|
  {
    if bs != [] {
      SplitRendered(bs[1..]);
      LineHasNoBreak(bs[0]);
      SplitLinesTerminated(Line(bs[0]), Render(bs[1..]));
    }
  }

  lemma {:induction false} LinesAt(bs: seq<Binding>, i: nat)
    requires i < |bs|
    ensures Lines(bs)[i] == Line(bs[i])
  {
    if i > 0 {
      LinesAt(bs[1..], i - 1);
    }
  }

  /** Parsed lines that are all bindings yield exactly those bindings, in order. */
  lemma {:induction false} BindingsOfParsed(ps: seq<Option<Binding>>, bs: seq<Binding>)
    requires |ps| == |bs|
    requires forall i :: 0 <= i < |bs| ==> ps[i] == Some(bs[i])
    ensures Bindings(ps) == bs
    decreases |bs|
  {
    if bs != [] {
      assert forall i :: 0 <= i < |bs| - 1 ==> ps[1..][i] == ps[i + 1] && bs[1..][i] == bs[i + 1];
      BindingsOfParsed(ps[1..], bs[1..]);
      assert bs == [bs[0]] + bs[1..];
    }
  }

  /** No NUL character occurs in a file written from bindings without one. */
  lemma {:induction false} RenderNoNul(bs: seq<Binding>)
    requires forall i :: 0 <= i < |bs| ==> '\0' !in bs[i].key && '\0' !in bs[i].value
    ensures '\0' !in Render(bs)
    decreases |bs|
  {
    if bs != [] {
      RenderNoNul(bs[1..]);
      assert '\0' !in Line(bs[0]);
    }
  }

  /**
   * Round trip of the loader: a file written from well-formed bindings loads
   * completely and leaves the environment as the bindings, applied in order,
   * make it.
   */
  lemma LoadOfRendered(bs: seq<Binding>, env: map<string, string>)
    requires forall i :: 0 <= i < |bs| ==> Writable(bs[i])
    ensures Load(Render(bs), env) == (Assign(env, bs), true)
  {
    RenderNoNul(bs);
    SplitRendered(bs);
    var ps := ParseLines(Lines(bs));
    forall i | 0 <= i < |bs| ensures ps[i] == Some(bs[i]) {
      ParseLinesAt(Lines(bs), i);
      LinesAt(bs, i);
      ParseWritten(bs[i]);
    }
    BindingsOfParsed(ps, bs);
    ApplyLinesIsAssign(env, ps);
  }
}
