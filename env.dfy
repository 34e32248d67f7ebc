/**
 * The `.env` loader of config.php (`carregarEnv`): every `KEY=VALUE` line
 * of the file becomes a PHP constant, unless a constant of that name is
 * already defined.  The file is given as its sequence of lines (PHP reads
 * it with FILE_IGNORE_NEW_LINES | FILE_SKIP_EMPTY_LINES); the constant
 * table is a map from names to values that the loader extends in place.
 */
module Env {
  import opened Wrappers
  import opened Bytes

  const HASH: byte := 35
  const EQUALS: byte := 61
  /** `trim($value, '"\'')` strips double and single quotes. */
  const QUOTES: set<byte> := {34, 39}

  type Table = map<Bytes, Bytes>

  /** A line that is blank (or "0", PHP's `empty`) after trimming, or a comment. */
  predicate Skipped(line: Bytes)
    ensures !Skipped(line) ==> var t := Trim(line); t != [] && t[0] != HASH && t != [ZERO]
  {
    var t := Trim(line);
    (t != [] && t[0] == HASH) || PhpEmpty(t)
  }

  datatype Entry = Entry(key: Bytes, value: Bytes)

  /**
   * `list($key, $value) = explode('=', $line, 2)`: the text before the
   * first `=` and everything after it.  A line without `=` leaves `$value`
   * null, which `trim` turns into the empty string.
   */
  function SplitAtFirst(line: Bytes): (parts: (Bytes, Bytes))
    ensures EQUALS !in parts.0
    ensures EQUALS in line ==> line == parts.0 + [EQUALS] + parts.1
    ensures EQUALS !in line ==> parts == (line, [])
  {
    match IndexOf(line, EQUALS)
    case None => (line, [])
    case Some(i) =>
      assert line == line[..i] + [EQUALS] + line[i + 1..];
      (line[..i], line[i + 1..])
  }

  /** Neither end of `v` is a quote. */
  predicate Unquoted(v: Bytes) {
    v == [] || (v[0] !in QUOTES && v[|v| - 1] !in QUOTES)
  }

  /**
   * `trim($value)` and then `trim($value, '"\'')`: the value with
   * surrounding whitespace and then surrounding quotes removed.
   */
  function CleanValue(v: Bytes): (r: Bytes)
    ensures Unquoted(r)
  {
    TrimChars(Trim(v), QUOTES)
  }

  /** The constant a non-skipped line defines. */
  function Parse(line: Bytes): (e: Entry)
    ensures EQUALS !in e.key
    ensures Unquoted(e.value)
    ensures e.key == Trim(SplitAtFirst(line).0)
    ensures e.value == CleanValue(SplitAtFirst(line).1)
  {
    var parts := SplitAtFirst(line);
    TrimCharsKeepsAbsence(parts.0, WHITESPACE, EQUALS);
    Entry(Trim(parts.0), CleanValue(parts.1))
  }

  /** What one pass of the loop body reads from a line: nothing for a skipped line (`continue`), otherwise its parsed entry. */
  function LineEntry(line: Bytes): Option<Entry> {
    if Skipped(line) then None else Some(Parse(line))
  }

  /** The entries of the file's lines, in file order. */
  function Entries(lines: seq<Bytes>): (es: seq<Option<Entry>>)
    ensures |es| == |lines|
  {
    seq(|lines|, i requires 0 <= i < |lines| => LineEntry(lines[i]))
  }

  /** One iteration of the loop on a line's entry: `if (!defined($key)) define($key, $value);`. */
  function Define(table: Table, e: Option<Entry>): (t: Table)
    ensures e.None? ==> t == table
    ensures forall k :: k in table ==> k in t && t[k] == table[k]
    ensures e.Some? ==> e.value.key in t && forall k :: k in t ==> k in table || k == e.value.key
    ensures e.Some? && e.value.key !in table ==> t[e.value.key] == e.value.value
  {
    match e
    case None => table
    case Some(Entry(key, value)) => if key in table then table else table[key := value]
  }

  /** The table after the loop has run over the entries `es`: a name defined once is never redefined by later lines. */
  function Loaded(table: Table, es: seq<Option<Entry>>): (t: Table)
    ensures forall k :: k in table ==> k in t && t[k] == table[k]
    decreases |es|
  {
    if es == [] then table
    else Define(Loaded(table, es[..|es| - 1]), es[|es| - 1])
  }

  /** Reference definition: the value of the earliest entry of `es` for `key`. */
  function FirstDefinition(es: seq<Option<Entry>>, key: Bytes): Option<Bytes> {
    if es == [] then None
    else if es[0].Some? && es[0].value.key == key then Some(es[0].value.value)
    else FirstDefinition(es[1..], key)
  }

  lemma {:induction false} FirstDefinitionAppend(es: seq<Option<Entry>>, e: Option<Entry>, key: Bytes)
    ensures FirstDefinition(es + [e], key) ==
      if FirstDefinition(es, key).Some? then FirstDefinition(es, key)
      else if e.Some? && e.value.key == key then Some(e.value.value)
      else None
  {
    if es != [] {
      assert (es + [e])[0] == es[0];
      assert (es + [e])[1..] == es[1..] + [e];
      FirstDefinitionAppend(es[1..], e, key);
    } else {
      assert (es + [e])[1..] == [];
    }
  }

  /** `FirstDefinition` is the value of the earliest entry for `key`, and none exactly when no entry is for `key`. */
  lemma {:induction false} FirstDefinitionIsEarliest(es: seq<Option<Entry>>, key: Bytes)
    ensures FirstDefinition(es, key).None? <==> forall i :: 0 <= i < |es| ==> es[i].None? || es[i].value.key != key
    ensures FirstDefinition(es, key).Some? ==>
      exists i :: 0 <= i < |es| && es[i].Some? && es[i].value.key == key &&
        FirstDefinition(es, key).value == es[i].value.value &&
        forall j :: 0 <= j < i ==> es[j].None? || es[j].value.key != key
  {
    if es != [] && !(es[0].Some? && es[0].value.key == key) {
      var rest := es[1..];
      FirstDefinitionIsEarliest(rest, key);
      assert forall i :: 1 <= i < |es| ==> es[i] == rest[i - 1];
      if FirstDefinition(rest, key).Some? {
        var i :| 0 <= i < |rest| && rest[i].Some? && rest[i].value.key == key &&
          FirstDefinition(rest, key).value == rest[i].value.value &&
          forall j :: 0 <= j < i ==> rest[j].None? || rest[j].value.key != key;
        assert es[i + 1] == rest[i];
        forall j | 0 <= j < i + 1
          ensures es[j].None? || es[j].value.key != key
        {
          if j > 0 {
            assert es[j] == rest[j - 1];
          }
        }
      }
    }
  }

  /**
   * First definition wins: after loading, a name that was already defined
   * keeps its value, and any other name holds the value of the first entry
   * that defines it, or is still undefined when no entry does.
   */
  lemma {:induction false} LoadedIsFirstDefinition(table: Table, es: seq<Option<Entry>>, key: Bytes)
    ensures key in table ==> key in Loaded(table, es) && Loaded(table, es)[key] == table[key]
    ensures key !in table ==>
      match FirstDefinition(es, key)
      case None => key !in Loaded(table, es)
      case Some(v) => key in Loaded(table, es) && Loaded(table, es)[key] == v
    decreases |es|
  {
    if es != [] {
      var init, last := es[..|es| - 1], es[|es| - 1];
      assert es == init + [last];
      FirstDefinitionAppend(init, last, key);
      LoadedIsFirstDefinition(table, init, key);
    }
  }

  /** Loading one entry more is one more iteration of the loop. */
  lemma LoadedStep(table: Table, es: seq<Option<Entry>>, i: nat)
    requires i < |es|
    ensures Loaded(table, es[..i + 1]) == Define(Loaded(table, es[..i]), es[i])
  {
    assert es[..i + 1][..i] == es[..i];
  }

  /** The `=` splits only once: whatever follows the first `=` is the value, `=` included. */
  lemma ValueKeepsLaterEquals(key: Bytes, value: Bytes)
    requires EQUALS !in key
    ensures SplitAtFirst(key + [EQUALS] + value) == (key, value)
  {
    var line := key + [EQUALS] + value;
    var i := IndexOf(line, EQUALS).value;
    assert line[|key|] == EQUALS;
    assert forall j :: 0 <= j < |key| ==> line[j] == key[j];
    assert i == |key|;
    assert line[..i] == key;
    assert line[i + 1..] == value;
  }

  /** PHP's constant table: the names defined so far and their values. */
  class Constants {
    var defined: Table

    constructor (predefined: Table)
      ensures defined == predefined
    {
      defined := predefined;
    }

    /** `if (!defined($key)) define($key, $value);` for one line's entry. */
    method DefineEntry(e: Option<Entry>)
      modifies this
      ensures defined == Define(old(defined), e)
    {
      if e.Some? && e.value.key !in defined {
        defined := defined[e.value.key := e.value.value];
      }
    }

    /** `carregarEnv()`, once the file has been read into `lines`. */
    method LoadEnv(lines: seq<Bytes>)
      modifies this
      ensures defined == Loaded(old(defined), Entries(lines))
    {
      ghost var es := Entries(lines);
      var i := 0;
      while i < |lines|
        invariant 0 <= i <= |lines|
        invariant defined == Loaded(old(defined), es[..i])
      {
        var entry := LineEntry(lines[i]);
        assert entry == es[i];
        DefineEntry(entry);
        LoadedStep(old(defined), es, i);
        i := i + 1;
        assert defined == Loaded(old(defined), es[..i]);
      }
      assert es[..i] == es;
    }
  }
}
