// The parsing of the `--read` and `--write` arguments of the axconfig-gen
// command line (vendor/axconfig-gen/src/main.rs).

module AxMain {

  import opened Common
  import opened AxConfigs

  /** `str::split_once` with a char: the text before and after the first
      occurrence of `c`. */
  function SplitOnce(s: string, c: char): (r: Option<(string, string)>)
    ensures r.None? <==> c !in s
    ensures r.Some? ==> s == r.value.0 + [c] + r.value.1 && c !in r.value.0
  {
    match Find(s, c)
    case None => None
    case Some(i) =>
      assert s == s[..i] + [c] + s[i + 1..];
      Some((s[..i], s[i + 1..]))
  }

  /** Splitting at the first `c` of `a + [c] + b`, when `a` has none, gives
      back `a` and `b`. */
  lemma SplitOnceJoin(a: string, b: string, c: char)
    requires c !in a
    ensures SplitOnce(a + [c] + b, c) == Some((a, b))
  {
    var s := a + [c] + b;
    var r := SplitOnce(s, c);
    assert c in s by { assert s[|a|] == c; }
    assert forall j :: 0 <= j < |a| ==> s[j] == a[j];
    assert s[|a|] == c;
    assert s[..|a|] == a && s[|a| + 1..] == b;
  }

  /** `parse_config_read_arg`: `table.key` names the key of a table, split
      at the first '.'; an argument without '.' names a key of the global
      table. It never fails. */
  function ParseReadArg(arg: string): (r: Result<(string, string), string>)
    ensures r.Ok?
    ensures '.' !in arg ==> r.value == (GLOBAL_TABLE_NAME, arg)
    ensures '.' in arg ==> arg == r.value.0 + "." + r.value.1 && '.' !in r.value.0
  {
    match SplitOnce(arg, '.')
    case Some((table, key)) => Ok((table, key))
    case None => Ok((GLOBAL_TABLE_NAME, arg))
  }

  /** The message for a `--write` argument without '='. */
  function BadWriteArg(arg: string): string
  {
    "Invalid config setting command `" + arg + "`, expected `table.key=value`"
  }

  /** `parse_config_write_arg`: `table.key=value`, split at the first '='
      and the part before it at its first '.', so the value may hold '.'
      and '='; an item without '.' is a key of the global table, and an
      argument without '=' is refused. */
  function ParseWriteArg(arg: string): (r: Result<(string, string, string), string>)
    ensures r.Err? <==> '=' !in arg
    ensures r.Err? ==> r.error == BadWriteArg(arg)
    ensures r.Ok? ==> |r.value.2| < |arg|
    ensures r.Ok? ==>
      var item := arg[..|arg| - |r.value.2| - 1];
      arg == item + "=" + r.value.2 && '=' !in item &&
      ('.' in item ==> item == r.value.0 + "." + r.value.1 && '.' !in r.value.0) &&
      ('.' !in item ==> r.value.0 == GLOBAL_TABLE_NAME && r.value.1 == item)
  {
    match SplitOnce(arg, '=')
    case None => Err(BadWriteArg(arg))
    case Some((item, value)) =>
      match SplitOnce(item, '.')
      case Some((table, key)) => Ok((table, key, value))
      case None => Ok((GLOBAL_TABLE_NAME, item, value))
  }

  /** Reading back a written `table.key`: the table and the key come back
      when the table name has no '.'. */
  lemma ParseReadArgJoin(table: string, key: string)
    requires '.' !in table
    ensures ParseReadArg(table + "." + key) == Ok((table, key))
  {
    SplitOnceJoin(table, key, '.');
  }

  /** A written `table.key=value` parses back to its three parts when the
      table name has no '.' and the item has no '=', whatever the value
      holds. */
  lemma ParseWriteArgJoin(table: string, key: string, value: string)
    requires '.' !in table && '=' !in table && '=' !in key
    ensures ParseWriteArg(table + "." + key + "=" + value) == Ok((table, key, value))
  {
    var item := table + "." + key;
    assert '=' !in item by {
      assert forall i :: 0 <= i < |item| ==> item[i] == (if i < |table| then table[i] else if i == |table| then '.' else key[i - |table| - 1]);
    }
    SplitOnceJoin(item, value, '=');
    SplitOnceJoin(table, key, '.');
  }

  /** `key=value` without '.' in the key sets a key of the global table. */
  lemma ParseWriteArgGlobal(key: string, value: string)
    requires '.' !in key && '=' !in key
    ensures ParseWriteArg(key + "=" + value) == Ok((GLOBAL_TABLE_NAME, key, value))
  {
    SplitOnceJoin(key, value, '=');
  }

  /** A value may itself hold '.' and '='. */
  lemma ParseWriteArgValue()
    ensures ParseWriteArg("plat.name=a.b=c") == Ok(("plat", "name", "a.b=c"))
  {
    var t, k, v := "plat", "name", "a.b=c";
    assert t + "." + k + "=" + v == "plat.name=a.b=c";
    assert '.' !in t && '=' !in t && '=' !in k;
    ParseWriteArgJoin(t, k, v);
  }
}
