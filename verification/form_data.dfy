/**
 * The form plumbing of the browser client (public/util.ts). `fieldsToHtml`
 * names every input of an operation's form by its dot-joined path in the
 * operation's `Fields` tree; on submit, `submitEventHandler` moves the values
 * named by `:param` placeholders of the endpoint into the URL, and
 * `prefixedRecordIntoObject` turns the remaining dotted names back into a
 * nested request body.
 */
module FormData {
  import opened Store

  // ---------------------------------------------------------------------------
  // Dotted names

  /** `key.split(".")`: the pieces of `s` between dots, at least one, possibly empty. */
  function Split(s: string): (r: seq<string>)
    ensures |r| >= 1
    ensures forall i :: 0 <= i < |r| ==> '.' !in r[i]
  {
    if s == [] then [""]
    else if s[0] == '.' then [""] + Split(s[1..])
    else
      var rest := Split(s[1..]);
      [[s[0]] + rest[0]] + rest[1..]
  }

  /** The pieces joined back with dots. */
  function Join(parts: seq<string>): string
    requires |parts| >= 1
  {
    if |parts| == 1 then parts[0] else parts[0] + "." + Join(parts[1..])
  }

  /** A name without dots is a single piece. */
  lemma {:induction false} SplitNoDot(s: string)
    requires '.' !in s
    ensures Split(s) == [s]
  {
    if s != [] {
      SplitNoDot(s[1..]);
      assert s == [s[0]] + s[1..];
    }
  }

  /** A dot-free head followed by a dot splits off as the first piece. */
  lemma {:induction false} SplitDot(head: string, tail: string)
    requires '.' !in head
    ensures Split(head + "." + tail) == [head] + Split(tail)
  {
    if head == [] {
      assert head + "." + tail == ['.'] + tail;
      assert (['.'] + tail)[1..] == tail;
    } else {
      var s := head + "." + tail;
      assert s[0] == head[0];
      assert s[1..] == head[1..] + "." + tail;
      SplitDot(head[1..], tail);
      assert [head[0]] + head[1..] == head;
    }
  }

  /** Splitting inverts joining pieces that hold no dot. */
  lemma {:induction false} SplitJoin(parts: seq<string>)
    requires |parts| >= 1
    requires forall i :: 0 <= i < |parts| ==> '.' !in parts[i]
    ensures Split(Join(parts)) == parts
  {
    if |parts| == 1 {
      SplitNoDot(parts[0]);
    } else {
      SplitJoin(parts[1..]);
      SplitDot(parts[0], Join(parts[1..]));
      assert [parts[0]] + parts[1..] == parts;
    }
  }

  /** Joining inverts splitting: `split(".")` loses nothing of the key. */
  lemma {:induction false} JoinSplit(s: string)
    ensures Join(Split(s)) == s
  {
    if s == [] {
    } else if s[0] == '.' {
      JoinSplit(s[1..]);
      assert Split(s) == [""] + Split(s[1..]);
      assert s == "." + s[1..];
    } else {
      JoinSplit(s[1..]);
      var rest := Split(s[1..]);
      var parts := [[s[0]] + rest[0]] + rest[1..];
      assert Split(s) == parts;
      if |rest| == 1 {
        assert rest == [rest[0]];
        assert Join(rest) == rest[0];
      } else {
        assert parts[1..] == rest[1..];
        assert Join(rest) == rest[0] + "." + Join(rest[1..]);
      }
      assert s == [s[0]] + s[1..];
    }
  }

  // ---------------------------------------------------------------------------
  // Request bodies

  /** A value of the body: a string, or an object built by the walk. */
  datatype Obj = Leaf(s: string) | Node(fields: map<string, Obj>)

  /** The value at `path`, when every step but the last lands on an object. */
  function Get(m: map<string, Obj>, path: seq<string>): Option<Obj>
    requires |path| >= 1
    decreases |path|
  {
    if path[0] !in m then None
    else if |path| == 1 then Some(m[path[0]])
    else match m[path[0]]
      case Leaf(_) => None
      case Node(sub) => Get(sub, path[1..])
  }

  /** The object `m` with its key `k` set to the object the inner walk produced, if it did. */
  function Wrap(m: map<string, Obj>, k: string, inner: Option<map<string, Obj>>): Option<map<string, Obj>>
  {
    if inner.None? then None else Some(m[k := Node(inner.value)])
  }

  /**
   * The cursor walk for one entry: every piece but the last steps into the
   * object under it, creating `{}` where the key is missing or falsy (`""`);
   * the last piece is assigned the value. Stepping onto a non-empty string and
   * assigning into it throws a TypeError in strict mode: None.
   */
  function SetPath(m: map<string, Obj>, path: seq<string>, v: string): Option<map<string, Obj>>
    requires |path| >= 1
    decreases |path|
  {
    var k := path[0];
    if |path| == 1 then Some(m[k := Leaf(v)])
    else if k !in m || m[k] == Leaf("") then Wrap(m, k, SetPath(map[], path[1..], v))
    else match m[k]
      case Leaf(_) => None
      case Node(sub) => Wrap(m, k, SetPath(sub, path[1..], v))
  }

  /** The assignment lands: after the walk the value sits at `path`. */
  lemma {:induction false} SetPathGet(m: map<string, Obj>, path: seq<string>, v: string)
    requires |path| >= 1
    requires SetPath(m, path, v).Some?
    ensures Get(SetPath(m, path, v).value, path) == Some(Leaf(v))
    decreases |path|
  {
    if |path| > 1 {
      var k := path[0];
      if k !in m || m[k] == Leaf("") {
        SetPathGet(map[], path[1..], v);
      } else {
        SetPathGet(m[k].fields, path[1..], v);
      }
    }
  }

  /** Two paths part ways at some piece both have. */
  predicate Diverge(p: seq<string>, q: seq<string>)
  {
    exists i :: 0 <= i < |p| && i < |q| && p[i] != q[i]
  }

  /**
   * The walk touches nothing off its path: a value whose path parts ways with
   * `path` is where it was, so entries sharing a prefix meet in one object.
   */
  lemma {:induction false} SetPathKeeps(m: map<string, Obj>, path: seq<string>, v: string, q: seq<string>)
    requires |path| >= 1 && |q| >= 1
    requires SetPath(m, path, v).Some?
    requires Diverge(path, q)
    ensures Get(SetPath(m, path, v).value, q) == Get(m, q)
    decreases |path|
  {
    var k := path[0];
    var m' := SetPath(m, path, v).value;
    if q[0] != k {
    } else {
      var i :| 0 <= i < |path| && i < |q| && path[i] != q[i];
      assert i >= 1 && |path| > 1 && |q| > 1;
      assert path[1..][i - 1] != q[1..][i - 1];
      var sub := if k !in m || m[k] == Leaf("") then map[] else m[k].fields;
      SetPathKeeps(sub, path[1..], v, q[1..]);
      assert m'[k] == Node(SetPath(sub, path[1..], v).value);
      if k !in m || m[k] == Leaf("") {
        GetEmpty(q[1..]);
      }
    }
  }

  /** Nothing is found in an empty object. */
  lemma GetEmpty(path: seq<string>)
    requires |path| >= 1
    ensures Get(map[], path) == None
  {
  }

  /** Walking into a fresh object never throws. */
  lemma {:induction false} SetPathIntoEmpty(path: seq<string>, v: string)
    requires |path| >= 1
    ensures SetPath(map[], path, v).Some?
    decreases |path|
  {
    if |path| > 1 {
      SetPathIntoEmpty(path[1..], v);
    }
  }

  /** A leaf that blocks the walk: a non-empty string. */
  predicate Blocks(o: Option<Obj>)
  {
    o.Some? && o.value.Leaf? && o.value.s != ""
  }

  /**
   * The walk throws exactly when some strict prefix of the path already holds
   * a non-empty string.
   */
  lemma {:induction false} SetPathThrows(m: map<string, Obj>, path: seq<string>, v: string)
    requires |path| >= 1
    ensures SetPath(m, path, v).None? <==> exists j :: 1 <= j < |path| && Blocks(Get(m, path[..j]))
    decreases |path|
  {
    var k := path[0];
    assert path[..1] == [k];
    if |path| == 1 {
    } else if k !in m || m[k] == Leaf("") {
      SetPathIntoEmpty(path[1..], v);
      forall j | 1 <= j < |path| ensures !Blocks(Get(m, path[..j])) {
        assert path[..j][0] == k;
      }
    } else {
      match m[k]
      case Leaf(s) =>
        assert Blocks(Get(m, path[..1]));
      case Node(sub) =>
        SetPathThrows(sub, path[1..], v);
        forall j | 1 < j < |path| ensures Get(m, path[..j]) == Get(sub, path[1..][..j - 1]) {
          assert path[..j][0] == k;
          assert path[..j][1..] == path[1..][..j - 1];
        }
        assert !Blocks(Get(m, path[..1]));
        if SetPath(m, path, v).None? {
          var j :| 1 <= j < |path| - 1 && Blocks(Get(sub, path[1..][..j]));
          assert Blocks(Get(m, path[..j + 1]));
        }
    }
  }

  /** Assigning the same path twice leaves what the second assignment alone would. */
  lemma {:induction false} SetPathTwice(m: map<string, Obj>, path: seq<string>, v1: string, v2: string)
    requires |path| >= 1
    requires SetPath(m, path, v1).Some?
    ensures SetPath(SetPath(m, path, v1).value, path, v2) == SetPath(m, path, v2)
    decreases |path|
  {
    var k := path[0];
    var m1 := SetPath(m, path, v1).value;
    if |path| == 1 {
      assert m1[k := Leaf(v2)] == m[k := Leaf(v2)];
    } else {
      var sub := if k !in m || m[k] == Leaf("") then map[] else m[k].fields;
      var sub1 := SetPath(sub, path[1..], v1).value;
      assert m1 == m[k := Node(sub1)];
      SetPathTwice(sub, path[1..], v1, v2);
      var inner := SetPath(sub, path[1..], v2);
      assert SetPath(m1, path, v2) == Wrap(m1, k, inner);
      if inner.Some? {
        assert m1[k := Node(inner.value)] == m[k := Node(inner.value)];
      }
    }
  }

  /** An entry of the record: its name, and its value, None for `undefined` or `null`. */
  type Entry = (string, Option<string>)

  /** Whether the loop skips the entry: an `undefined`, `null` or empty value. */
  predicate Skipped(e: Entry)
  {
    e.1.None? || e.1.value == ""
  }

  /**
   * The outer loop of `prefixedRecordIntoObject` from the object `acc` on:
   * entries in order, skipped ones left out, each other one walked in by its
   * dotted name; None once a walk throws.
   */
  function UnflattenInto(acc: map<string, Obj>, es: seq<Entry>): Option<map<string, Obj>>
    decreases |es|
  {
    if es == [] then Some(acc)
    else if Skipped(es[0]) then UnflattenInto(acc, es[1..])
    else match SetPath(acc, Split(es[0].0), es[0].1.value)
      case None => None
      case Some(acc') => UnflattenInto(acc', es[1..])
  }

  /** `prefixedRecordIntoObject`: the body built from an empty object; None when it throws. */
  method PrefixedRecordIntoObject(record: seq<Entry>) returns (r: Option<Obj>)
    ensures r.None? <==> UnflattenInto(map[], record).None?
    ensures r.Some? ==> r.value == Node(UnflattenInto(map[], record).value)
  {
    var obj: map<string, Obj> := map[];
    var i := 0;
    while i < |record|
      invariant 0 <= i <= |record|
      invariant UnflattenInto(map[], record) == UnflattenInto(obj, record[i..])
    {
      var (key, value) := record[i];
      assert record[i..][1..] == record[i + 1..];
      if value.None? || value.value == "" {
        i := i + 1;
        continue;
      }
      var walked := SetPath(obj, Split(key), value.value);
      if walked.None? {
        return None;
      }
      obj := walked.value;
      i := i + 1;
    }
    return Some(Node(obj));
  }

  /** The entries the loop does not skip, in order. */
  function Kept(es: seq<Entry>): (r: seq<Entry>)
    ensures forall e :: e in r <==> e in es && !Skipped(e)
  {
    if es == [] then []
    else if Skipped(es[0]) then Kept(es[1..])
    else [es[0]] + Kept(es[1..])
  }

  /** Entries with an empty, `null` or `undefined` value change nothing. */
  lemma {:induction false} SkippedChangeNothing(acc: map<string, Obj>, es: seq<Entry>)
    ensures UnflattenInto(acc, es) == UnflattenInto(acc, Kept(es))
    decreases |es|
  {
    if es != [] {
      if Skipped(es[0]) {
        SkippedChangeNothing(acc, es[1..]);
      } else {
        var ks := [es[0]] + Kept(es[1..]);
        assert ks[0] == es[0] && ks[1..] == Kept(es[1..]);
        match SetPath(acc, Split(es[0].0), es[0].1.value)
        case None =>
        case Some(acc') =>
          SkippedChangeNothing(acc', es[1..]);
      }
    }
  }

  /** The fold over two runs of entries is the fold over the first, then the second. */
  lemma {:induction false} UnflattenConcat(acc: map<string, Obj>, a: seq<Entry>, b: seq<Entry>)
    ensures UnflattenInto(acc, a + b) ==
      if UnflattenInto(acc, a).None? then None else UnflattenInto(UnflattenInto(acc, a).value, b)
    decreases |a|
  {
    if a == [] {
      assert a + b == b;
    } else {
      assert (a + b)[0] == a[0] && (a + b)[1..] == a[1..] + b;
      if Skipped(a[0]) {
        UnflattenConcat(acc, a[1..], b);
      } else {
        match SetPath(acc, Split(a[0].0), a[0].1.value)
        case None =>
        case Some(acc') =>
          UnflattenConcat(acc', a[1..], b);
      }
    }
  }

  /**
   * A key without dots lands at the top level and a dotted key at its path: the
   * last entry's value is what its name leads to.
   */
  lemma LastEntryLands(acc: map<string, Obj>, es: seq<Entry>, key: string, v: string)
    requires v != ""
    requires UnflattenInto(acc, es + [(key, Some(v))]).Some?
    ensures Get(UnflattenInto(acc, es + [(key, Some(v))]).value, Split(key)) == Some(Leaf(v))
    ensures '.' !in key ==>
      key in UnflattenInto(acc, es + [(key, Some(v))]).value && UnflattenInto(acc, es + [(key, Some(v))]).value[key] == Leaf(v)
  {
    UnflattenConcat(acc, es, [(key, Some(v))]);
    var before := UnflattenInto(acc, es).value;
    assert [(key, Some(v))][1..] == [];
    SetPathGet(before, Split(key), v);
    if '.' !in key {
      SplitNoDot(key);
    }
  }

  /** A later entry with the same name overwrites an earlier one. */
  lemma LaterEntryWins(acc: map<string, Obj>, key: string, v1: string, v2: string)
    requires v1 != "" && v2 != ""
    requires UnflattenInto(acc, [(key, Some(v1))]).Some?
    ensures UnflattenInto(acc, [(key, Some(v1)), (key, Some(v2))]) == UnflattenInto(acc, [(key, Some(v2))])
  {
    var es := [(key, Some(v1)), (key, Some(v2))];
    assert es[1..] == [(key, Some(v2))];
    assert [(key, Some(v1))][1..] == [] && [(key, Some(v2))][1..] == [];
    SetPathTwice(acc, Split(key), v1, v2);
  }

  /**
   * Entries whose names part ways meet in one object: the second keeps the
   * value the first put, so `update.username` and `update.password` both end up
   * under `update`.
   */
  lemma SharedPrefix(acc: map<string, Obj>, k1: string, v1: string, k2: string, v2: string)
    requires v1 != "" && v2 != ""
    requires Diverge(Split(k2), Split(k1))
    requires UnflattenInto(acc, [(k1, Some(v1)), (k2, Some(v2))]).Some?
    ensures Get(UnflattenInto(acc, [(k1, Some(v1)), (k2, Some(v2))]).value, Split(k1)) == Some(Leaf(v1))
    ensures Get(UnflattenInto(acc, [(k1, Some(v1)), (k2, Some(v2))]).value, Split(k2)) == Some(Leaf(v2))
  {
    var es := [(k1, Some(v1)), (k2, Some(v2))];
    assert es[1..] == [(k2, Some(v2))] && [(k2, Some(v2))][1..] == [];
    var o1 := SetPath(acc, Split(k1), v1);
    assert UnflattenInto(acc, es) == if o1.None? then None else UnflattenInto(o1.value, es[1..]);
    var m1 := o1.value;
    var o2 := SetPath(m1, Split(k2), v2);
    assert UnflattenInto(m1, es[1..]) == if o2.None? then None else UnflattenInto(o2.value, []);
    assert UnflattenInto(acc, es) == o2;
    SetPathGet(acc, Split(k1), v1);
    SetPathGet(m1, Split(k2), v2);
    SetPathKeeps(m1, Split(k2), v2, Split(k1));
  }

  /** An entry whose name steps through a non-empty string makes the whole call throw. */
  lemma StepThroughStringThrows(acc: map<string, Obj>, k: string, v: string, rest: string, w: string)
    requires '.' !in k && v != "" && w != ""
    ensures UnflattenInto(acc, [(k, Some(v)), (k + "." + rest, Some(w))]).None?
  {
    var es := [(k, Some(v)), (k + "." + rest, Some(w))];
    assert es[1..] == [(k + "." + rest, Some(w))] && es[1..][1..] == [];
    SplitNoDot(k);
    SplitDot(k, rest);
    var m1 := acc[k := Leaf(v)];
    assert SetPath(acc, Split(k), v) == Some(m1);
    var path := [k] + Split(rest);
    assert path[..1] == [k];
    SetPathThrows(m1, path, w);
    assert Blocks(Get(m1, path[..1]));
  }

  // ---------------------------------------------------------------------------
  // Endpoint placeholders

  /** A form value by name; `reqData` is a list of them with distinct names. */
  type Pair = (string, string)

  /** The lookup `reqData[key]`: the value of the first pair with that name. */
  function Lookup(data: seq<Pair>, key: string): (r: Option<string>)
    ensures r.None? <==> forall i :: 0 <= i < |data| ==> data[i].0 != key
    ensures r.Some? ==> (key, r.value) in data
  {
    if data == [] then None
    else if data[0].0 == key then Some(data[0].1)
    else Lookup(data[1..], key)
  }

  /** `delete reqData[key]`: every pair with that name goes, the others stay in order. */
  function Delete(data: seq<Pair>, key: string): (r: seq<Pair>)
    ensures forall e :: e in r <==> e in data && e.0 != key
  {
    if data == [] then []
    else if data[0].0 == key then Delete(data[1..], key)
    else [data[0]] + Delete(data[1..], key)
  }

  /** `\w` in a JavaScript regular expression without the `u` flag. */
  predicate IsWordChar(c: char)
  {
    'a' <= c <= 'z' || 'A' <= c <= 'Z' || '0' <= c <= '9' || c == '_'
  }

  /** How many word characters `s` starts with: the greedy `\w+`. */
  function WordLength(s: string): (n: nat)
    ensures n <= |s|
    ensures forall i :: 0 <= i < n ==> IsWordChar(s[i])
    ensures n < |s| ==> !IsWordChar(s[n])
  {
    if s != [] && IsWordChar(s[0]) then 1 + WordLength(s[1..]) else 0
  }

  /** A run of word characters that ends at a non-word character or the end is the greedy match. */
  lemma {:induction false} WordLengthIs(s: string, n: nat)
    requires n <= |s|
    requires forall i :: 0 <= i < n ==> IsWordChar(s[i])
    requires n < |s| ==> !IsWordChar(s[n])
    ensures WordLength(s) == n
  {
    if n > 0 {
      WordLengthIs(s[1..], n - 1);
    }
  }

  /** Whether a placeholder `:name` starts at the head of `s`. */
  predicate AtPlaceholder(s: string)
  {
    |s| > 1 && s[0] == ':' && IsWordChar(s[1])
  }

  /** The name of the placeholder at the head of `s`. */
  function PlaceholderName(s: string): (name: string)
    requires AtPlaceholder(s)
    ensures 1 <= |name| < |s| && name == s[1..1 + |name|]
  {
    s[1..1 + WordLength(s[1..])]
  }

  /** What the replacement callback returns: `reqData[key]`, which `replace` turns into "undefined" when missing. */
  function Param(data: seq<Pair>, key: string): string
  {
    match Lookup(data, key)
    case None => "undefined"
    case Some(v) => v
  }

  /**
   * `$endpoint.replace(/:(\w+)/g, …)`: scanning left to right, each placeholder
   * is replaced by its value, which is deleted from `reqData` at once; gives the
   * endpoint and what is left of `reqData`.
   */
  function Substitute(s: string, data: seq<Pair>): (string, seq<Pair>)
    decreases |s|
  {
    if s == [] then ("", data)
    else if AtPlaceholder(s) then
      var key := PlaceholderName(s);
      var rest := Substitute(s[1 + |key|..], Delete(data, key));
      (Param(data, key) + rest.0, rest.1)
    else
      var rest := Substitute(s[1..], data);
      ([s[0]] + rest.0, rest.1)
  }

  /** The placeholder names of `s`, in order, as the scan finds them. */
  function Placeholders(s: string): seq<string>
    decreases |s|
  {
    if s == [] then []
    else if AtPlaceholder(s) then [PlaceholderName(s)] + Placeholders(s[1 + |PlaceholderName(s)|..])
    else Placeholders(s[1..])
  }

  /** The endpoint with each placeholder replaced by its value in `data`, nothing deleted. */
  function Fill(s: string, data: seq<Pair>): string
    decreases |s|
  {
    if s == [] then ""
    else if AtPlaceholder(s) then Param(data, PlaceholderName(s)) + Fill(s[1 + |PlaceholderName(s)|..], data)
    else [s[0]] + Fill(s[1..], data)
  }

  /** The endpoint built so far followed by the substitution of what is left to scan. */
  function Resume(url: string, s: string, data: seq<Pair>): (string, seq<Pair>)
  {
    (url + Substitute(s, data).0, Substitute(s, data).1)
  }

  /** One placeholder step of the scan. */
  lemma ResumePlaceholder(url: string, s: string, data: seq<Pair>)
    requires AtPlaceholder(s)
    ensures Resume(url, s, data) ==
      Resume(url + Param(data, PlaceholderName(s)), s[1 + |PlaceholderName(s)|..], Delete(data, PlaceholderName(s)))
  {
    var key := PlaceholderName(s);
    var v := Param(data, key);
    var after := Substitute(s[1 + |key|..], Delete(data, key));
    calc {
      Resume(url, s, data);
      (url + Substitute(s, data).0, Substitute(s, data).1);
      (url + (v + after.0), after.1);
      { assert url + (v + after.0) == (url + v) + after.0; }
      ((url + v) + after.0, after.1);
    }
  }

  /** One literal step of the scan. */
  lemma ResumeLiteral(url: string, s: string, data: seq<Pair>)
    requires s != [] && !AtPlaceholder(s)
    ensures Resume(url, s, data) == Resume(url + [s[0]], s[1..], data)
  {
    var after := Substitute(s[1..], data);
    assert url + ([s[0]] + after.0) == (url + [s[0]]) + after.0;
  }

  /** The end of the run of word characters starting at `start`: what `\w+` consumes. */
  method WordEnd(s: string, start: nat) returns (j: nat)
    requires start <= |s|
    ensures start <= j <= |s|
    ensures j - start == WordLength(s[start..])
  {
    j := start;
    while j < |s| && IsWordChar(s[j])
      invariant start <= j <= |s|
      invariant forall t :: start <= t < j ==> IsWordChar(s[t])
    {
      j := j + 1;
    }
    WordLengthIs(s[start..], j - start);
  }

  /** A placeholder found at index `i` whose word characters end at `j`. */
  lemma PlaceholderAt(endpoint: string, i: nat, j: nat)
    requires i + 1 < j <= |endpoint| && AtPlaceholder(endpoint[i..])
    requires j - (i + 1) == WordLength(endpoint[i + 1..])
    ensures PlaceholderName(endpoint[i..]) == endpoint[i + 1..j]
    ensures endpoint[i..][j - i..] == endpoint[j..]
  {
    var s := endpoint[i..];
    assert s[1..] == endpoint[i + 1..];
    assert s[1..1 + (j - (i + 1))] == endpoint[i + 1..j];
  }

  /** The replacement loop of `submitEventHandler`, scanning the endpoint once. */
  method ReplaceParams(endpoint: string, reqData: seq<Pair>) returns (url: string, rest: seq<Pair>)
    ensures (url, rest) == Substitute(endpoint, reqData)
  {
    url := "";
    rest := reqData;
    var i := 0;
    assert endpoint[0..] == endpoint && "" + Substitute(endpoint, reqData).0 == Substitute(endpoint, reqData).0;
    while i < |endpoint|
      invariant 0 <= i <= |endpoint|
      invariant Substitute(endpoint, reqData) == Resume(url, endpoint[i..], rest)
    {
      ghost var s := endpoint[i..];
      if endpoint[i] == ':' && i + 1 < |endpoint| && IsWordChar(endpoint[i + 1]) {
        var j := WordEnd(endpoint, i + 1);
        var key := endpoint[i + 1..j];
        PlaceholderAt(endpoint, i, j);
        ResumePlaceholder(url, s, rest);
        url := url + Param(rest, key);
        rest := Delete(rest, key);
        i := j;
      } else {
        assert s[1..] == endpoint[i + 1..];
        ResumeLiteral(url, s, rest);
        url := url + [endpoint[i]];
        i := i + 1;
      }
    }
    assert endpoint[i..] == [];
    assert url + "" == url;
  }

  /** Without a placeholder the endpoint and `reqData` come back as they were. */
  lemma {:induction false} NoPlaceholder(s: string, data: seq<Pair>)
    requires ':' !in s
    ensures Substitute(s, data) == (s, data)
    decreases |s|
  {
    if s != [] {
      assert s[1..] <= s[1..] && forall c :: c in s[1..] ==> c in s;
      NoPlaceholder(s[1..], data);
      assert s == [s[0]] + s[1..];
    }
  }

  /** Every value named by a placeholder is deleted from `reqData`, and every other value remains. */
  lemma {:induction false} SubstituteDeletes(s: string, data: seq<Pair>)
    ensures forall e :: e in Substitute(s, data).1 <==> e in data && e.0 !in Placeholders(s)
    decreases |s|
  {
    if s == [] {
    } else if AtPlaceholder(s) {
      var key := PlaceholderName(s);
      SubstituteDeletes(s[1 + |key|..], Delete(data, key));
    } else {
      SubstituteDeletes(s[1..], data);
    }
  }

  /** Deleting one name leaves the lookup of every other name as it was. */
  lemma {:induction false} ParamAfterDelete(data: seq<Pair>, deleted: string, key: string)
    requires deleted != key
    ensures Param(Delete(data, deleted), key) == Param(data, key)
  {
    if data != [] {
      ParamAfterDelete(data[1..], deleted, key);
      if data[0].0 != deleted {
        var r := Delete(data, deleted);
        assert r[0] == data[0] && r[1..] == Delete(data[1..], deleted);
      }
    }
  }

  /** Filling from two lists that agree on every placeholder's value gives the same endpoint. */
  lemma {:induction false} FillAgrees(s: string, d1: seq<Pair>, d2: seq<Pair>)
    requires forall k :: k in Placeholders(s) ==> Param(d1, k) == Param(d2, k)
    ensures Fill(s, d1) == Fill(s, d2)
    decreases |s|
  {
    if s == [] {
    } else if AtPlaceholder(s) {
      FillAgrees(s[1 + |PlaceholderName(s)|..], d1, d2);
    } else {
      FillAgrees(s[1..], d1, d2);
    }
  }

  /** No placeholder name occurs twice. */
  predicate NoRepeats(names: seq<string>)
  {
    forall i, j :: 0 <= i < j < |names| ==> names[i] != names[j]
  }

  /**
   * When no placeholder is repeated, each one is replaced by the value its
   * name has in `reqData` as submitted: the deletions never hide a value.
   */
  lemma {:induction false} SubstituteFills(s: string, data: seq<Pair>)
    requires NoRepeats(Placeholders(s))
    ensures Substitute(s, data).0 == Fill(s, data)
    decreases |s|
  {
    if s == [] {
    } else if AtPlaceholder(s) {
      var key := PlaceholderName(s);
      var tail := s[1 + |key|..];
      var names := Placeholders(s);
      assert names == [key] + Placeholders(tail);
      assert NoRepeats(Placeholders(tail)) by {
        forall i, j | 0 <= i < j < |Placeholders(tail)| ensures Placeholders(tail)[i] != Placeholders(tail)[j] {
          assert names[i + 1] == Placeholders(tail)[i] && names[j + 1] == Placeholders(tail)[j];
        }
      }
      SubstituteFills(tail, Delete(data, key));
      forall k | k in Placeholders(tail) ensures Param(Delete(data, key), k) == Param(data, k) {
        var i :| 0 <= i < |Placeholders(tail)| && Placeholders(tail)[i] == k;
        assert names[i + 1] == k && names[0] == key;
        ParamAfterDelete(data, key, k);
      }
      FillAgrees(tail, Delete(data, key), data);
    } else {
      SubstituteFills(s[1..], data);
    }
  }

  /** Deleting a name that no pair carries leaves `reqData` as it was. */
  lemma {:induction false} DeleteAbsent(data: seq<Pair>, key: string)
    requires forall i :: 0 <= i < |data| ==> data[i].0 != key
    ensures Delete(data, key) == data
  {
    if data != [] {
      DeleteAbsent(data[1..], key);
      assert data == [data[0]] + data[1..];
    }
  }

  /**
   * A placeholder whose name has no value in `reqData` becomes "undefined",
   * and the scan goes on with `reqData` unchanged.
   */
  lemma PlaceholderWithoutValue(s: string, data: seq<Pair>)
    requires AtPlaceholder(s) && Lookup(data, PlaceholderName(s)).None?
    ensures var tail := Substitute(s[1 + |PlaceholderName(s)|..], data);
      Substitute(s, data) == ("undefined" + tail.0, tail.1)
  {
    DeleteAbsent(data, PlaceholderName(s));
  }

  /**
   * The endpoint with the first occurrence of each name replaced by its value
   * in `data` and every later occurrence of a name (or one in `seen`) by "undefined".
   */
  function FillFirst(s: string, data: seq<Pair>, seen: set<string>): string
    decreases |s|
  {
    if s == [] then ""
    else if AtPlaceholder(s) then
      var key := PlaceholderName(s);
      (if key in seen then "undefined" else Param(data, key)) + FillFirst(s[1 + |key|..], data, seen + {key})
    else [s[0]] + FillFirst(s[1..], data, seen)
  }

  /** `data` without the pairs whose names are in `seen`: `reqData` once those names are deleted. */
  function Without(data: seq<Pair>, seen: set<string>): seq<Pair>
  {
    if data == [] then []
    else if data[0].0 in seen then Without(data[1..], seen)
    else [data[0]] + Without(data[1..], seen)
  }

  /** Deleting nothing leaves `data` as it was. */
  lemma {:induction false} WithoutNothing(data: seq<Pair>)
    ensures Without(data, {}) == data
  {
    if data != [] {
      WithoutNothing(data[1..]);
      assert data == [data[0]] + data[1..];
    }
  }

  /** Deleting one more name from `data` without `seen` is `data` without `seen` and that name. */
  lemma {:induction false} DeleteWithout(data: seq<Pair>, seen: set<string>, key: string)
    ensures Delete(Without(data, seen), key) == Without(data, seen + {key})
  {
    if data != [] {
      DeleteWithout(data[1..], seen, key);
      var w := Without(data[1..], seen);
      if data[0].0 !in seen {
        var d := [data[0]] + w;
        assert d[0] == data[0] && d[1..] == w;
      }
    }
  }

  /** The value of a name in `data` without `seen`: none for a name in `seen`, its value in `data` otherwise. */
  lemma {:induction false} LookupWithout(data: seq<Pair>, seen: set<string>, key: string)
    ensures Lookup(Without(data, seen), key) == if key in seen then None else Lookup(data, key)
  {
    if data != [] {
      LookupWithout(data[1..], seen, key);
      var w := Without(data[1..], seen);
      if data[0].0 !in seen {
        var d := [data[0]] + w;
        assert d[0] == data[0] && d[1..] == w;
      }
    }
  }

  /** One placeholder step of the scan and of `FillFirst`, with the names in `seen` deleted. */
  lemma FirstPlaceholderStep(s: string, data: seq<Pair>, seen: set<string>)
    requires AtPlaceholder(s)
    ensures var key := PlaceholderName(s); var tail := s[1 + |key|..];
      var v := if key in seen then "undefined" else Param(data, key);
      && Substitute(s, Without(data, seen)).0 == v + Substitute(tail, Without(data, seen + {key})).0
      && FillFirst(s, data, seen) == v + FillFirst(tail, data, seen + {key})
  {
    var key := PlaceholderName(s);
    LookupWithout(data, seen, key);
    DeleteWithout(data, seen, key);
  }

  /** The scan over `reqData` once the names in `seen` are deleted from it. */
  lemma {:induction false} SubstituteFirstFrom(s: string, data: seq<Pair>, seen: set<string>)
    ensures Substitute(s, Without(data, seen)).0 == FillFirst(s, data, seen)
    decreases |s|, 1
  {
    if s == [] {
    } else if AtPlaceholder(s) {
      PlaceholderFirstFrom(s, data, seen);
    } else {
      LiteralFirstFrom(s, data, seen);
    }
  }

  /** `SubstituteFirstFrom` for an endpoint that starts with a placeholder. */
  lemma {:induction false} PlaceholderFirstFrom(s: string, data: seq<Pair>, seen: set<string>)
    requires AtPlaceholder(s)
    ensures Substitute(s, Without(data, seen)).0 == FillFirst(s, data, seen)
    decreases |s|, 0
  {
    var key := PlaceholderName(s);
    var tail := s[1 + |key|..];
    var v := if key in seen then "undefined" else Param(data, key);
    calc {
      Substitute(s, Without(data, seen)).0;
    == { FirstPlaceholderStep(s, data, seen); }
      v + Substitute(tail, Without(data, seen + {key})).0;
    == { SubstituteFirstFrom(tail, data, seen + {key}); }
      v + FillFirst(tail, data, seen + {key});
    == { FirstPlaceholderStep(s, data, seen); }
      FillFirst(s, data, seen);
    }
  }

  /** `SubstituteFirstFrom` for an endpoint that starts with a literal character. */
  lemma {:induction false} LiteralFirstFrom(s: string, data: seq<Pair>, seen: set<string>)
    requires s != [] && !AtPlaceholder(s)
    ensures Substitute(s, Without(data, seen)).0 == FillFirst(s, data, seen)
    decreases |s|, 0
  {
    SubstituteFirstFrom(s[1..], data, seen);
  }

  /**
   * Each placeholder becomes the value its name has in `reqData` as submitted
   * the first time that name occurs, and "undefined" at every later occurrence,
   * since the first one deleted it.
   */
  lemma SubstituteFirstOccurrence(s: string, data: seq<Pair>)
    ensures Substitute(s, data).0 == FillFirst(s, data, {})
  {
    SubstituteFirstFrom(s, data, {});
    WithoutNothing(data);
  }

  /** For example, `/:a` with nothing submitted gives `/undefined`. */
  lemma MissingPlaceholder()
    ensures Substitute("/:a", []) == ("/undefined", [])
  {
    var t := ":a";
    assert AtPlaceholder(t) && t[1..] == "a" && WordLength("a") == 1;
    assert PlaceholderName(t) == "a" && t[2..] == "";
    var none: seq<Pair> := [];
    assert Substitute(t[2..], none) == ("", none);
    PlaceholderWithoutValue(t, none);
    assert "undefined" + "" == "undefined";
    var u := "/:a";
    assert !AtPlaceholder(u) && u[0] == '/' && u[1..] == t;
    assert ['/'] + "undefined" == "/undefined";
  }

  /** For example, `:a/:a` with `a` = `1` gives `1/undefined`. */
  lemma RepeatedPlaceholder()
    ensures Substitute(":a/:a", [("a", "1")]) == ("1/undefined", [])
  {
    var s := ":a/:a";
    assert AtPlaceholder(s) && s[1..] == "a/:a";
    assert WordLength("/:a") == 0;
    assert WordLength("a/:a") == 1;
    assert PlaceholderName(s) == "a";
    var d := [("a", "1")];
    assert Lookup(d, "a") == Some("1");
    assert Delete(d, "a") == [];
    assert s[2..] == "/:a";
    MissingPlaceholder();
    assert "1" + "/undefined" == "1/undefined";
  }

  // ---------------------------------------------------------------------------
  // Form field names

  /** The input tags of an operation's form; `json` is shown as a textarea. */
  datatype InputTag = InputBox | Textarea | Json

  /** A `Field`: an input, or a group of named fields. */
  datatype Field = Tag(tag: InputTag) | Group(entries: seq<FieldEntry>)

  /** One `[name, field]` of `Object.entries(fields)`. */
  datatype FieldEntry = FieldEntry(name: string, field: Field)

  /** The `name` attributes `fieldsToHtml` gives the inputs of `fields`, in order. */
  function FieldNames(fields: seq<FieldEntry>, prefix: string): seq<string>
    decreases fields
  {
    if fields == [] then [] else EntryNames(fields[0], prefix) + FieldNames(fields[1..], prefix)
  }

  /** An input is named `prefix + name`; a group's inputs get the prefix `prefix + name + "."`. */
  function EntryNames(e: FieldEntry, prefix: string): seq<string>
    decreases e
  {
    match e.field
    case Tag(_) => [prefix + e.name]
    case Group(sub) => FieldNames(sub, prefix + e.name + ".")
  }

  /**
   * The fields of the operations table: names hold no dot and are distinct
   * within a group, and no group is empty.
   */
  predicate WfFields(fields: seq<FieldEntry>)
    decreases fields
  {
    && (forall i, j :: 0 <= i < j < |fields| ==> fields[i].name != fields[j].name)
    && (forall i :: 0 <= i < |fields| ==> WfEntry(fields[i]))
  }

  predicate WfEntry(e: FieldEntry)
    decreases e
  {
    && '.' !in e.name
    && (e.field.Group? ==> |e.field.entries| >= 1 && WfFields(e.field.entries))
  }

  /** Each name with `p` in front. */
  function Prefixed(p: string, names: seq<string>): (r: seq<string>)
    ensures |r| == |names| && forall i :: 0 <= i < |names| ==> r[i] == p + names[i]
  {
    seq(|names|, i requires 0 <= i < |names| => p + names[i])
  }

  /** The names under a longer prefix are the names under the shorter one with the rest in front. */
  lemma {:induction false} FieldNamesShift(fields: seq<FieldEntry>, p: string, q: string)
    ensures FieldNames(fields, p + q) == Prefixed(p, FieldNames(fields, q))
    decreases fields
  {
    if fields != [] {
      EntryNamesShift(fields[0], p, q);
      FieldNamesShift(fields[1..], p, q);
      var a := EntryNames(fields[0], q);
      var b := FieldNames(fields[1..], q);
      assert Prefixed(p, a + b) == Prefixed(p, a) + Prefixed(p, b);
    }
  }

  lemma {:induction false} EntryNamesShift(e: FieldEntry, p: string, q: string)
    ensures EntryNames(e, p + q) == Prefixed(p, EntryNames(e, q))
    decreases e
  {
    match e.field
    case Tag(_) =>
      assert p + q + e.name == p + (q + e.name);
    case Group(sub) =>
      assert p + q + e.name + "." == p + (q + e.name + ".");
      FieldNamesShift(sub, p, q + e.name + ".");
  }

  /** Every well-formed field and every non-empty list of them names at least one input. */
  lemma {:induction false} NamesNonEmpty(fields: seq<FieldEntry>, prefix: string)
    requires |fields| >= 1 && WfFields(fields)
    ensures |FieldNames(fields, prefix)| >= 1
    decreases fields
  {
    assert WfEntry(fields[0]);
    match fields[0].field
    case Tag(_) =>
    case Group(sub) =>
      NamesNonEmpty(sub, prefix + fields[0].name + ".");
  }

  /** The record the form submits when every input `n` holds `values(n)`. */
  function Submitted(names: seq<string>, values: string -> string): (r: seq<Entry>)
    ensures |r| == |names| && forall i :: 0 <= i < |names| ==> r[i] == (names[i], Some(values(names[i])))
  {
    seq(|names|, i requires 0 <= i < |names| => (names[i], Some(values(names[i]))))
  }

  /** Each entry renamed `a.name`. */
  function Under(a: string, es: seq<Entry>): (r: seq<Entry>)
    ensures |r| == |es| && forall i :: 0 <= i < |es| ==> r[i] == (a + "." + es[i].0, es[i].1)
  {
    seq(|es|, i requires 0 <= i < |es| => (a + "." + es[i].0, es[i].1))
  }

  /**
   * The object the form's fields describe: an input's value under its name, a
   * group's object under the group's name.
   */
  function Expected(fields: seq<FieldEntry>, values: string -> string): map<string, Obj>
    decreases fields
  {
    if fields == [] then map[] else Expected(fields[1..], values)[fields[0].name := EntryValue(fields[0], values)]
  }

  function EntryValue(e: FieldEntry, values: string -> string): Obj
    decreases e
  {
    match e.field
    case Tag(_) => Leaf(values(e.name))
    case Group(sub) => Node(Expected(sub, (s: string) => values(e.name + "." + s)))
  }

  /** The top-level keys of the object are the names of the fields. */
  lemma {:induction false} ExpectedKeys(fields: seq<FieldEntry>, values: string -> string, k: string)
    ensures k in Expected(fields, values) <==> exists i :: 0 <= i < |fields| && fields[i].name == k
    decreases fields
  {
    if fields != [] {
      ExpectedKeys(fields[1..], values, k);
      if exists i :: 0 <= i < |fields| && fields[i].name == k {
        var i :| 0 <= i < |fields| && fields[i].name == k;
        if i > 0 {
          assert fields[1..][i - 1] == fields[i];
        }
      }
      if exists i :: 0 <= i < |fields[1..]| && fields[1..][i].name == k {
        var i :| 0 <= i < |fields[1..]| && fields[1..][i].name == k;
        assert fields[i + 1].name == k;
      }
    }
  }

  /** Walking entries renamed under `a` into an object that has one under `a` walks them into that object. */
  lemma {:induction false} FoldUnderNode(m: map<string, Obj>, a: string, rel: seq<Entry>)
    requires '.' !in a && a in m && m[a].Node?
    requires forall i :: 0 <= i < |rel| ==> !Skipped(rel[i])
    ensures UnflattenInto(m, Under(a, rel)) == Wrap(m, a, UnflattenInto(m[a].fields, rel))
    decreases |rel|
  {
    var es := Under(a, rel);
    if rel == [] {
      assert m[a := Node(m[a].fields)] == m;
    } else {
      SplitDot(a, rel[0].0);
      var path := [a] + Split(rel[0].0);
      assert path[0] == a && path[1..] == Split(rel[0].0);
      var inner := SetPath(m[a].fields, Split(rel[0].0), rel[0].1.value);
      assert SetPath(m, path, rel[0].1.value) == Wrap(m, a, inner);
      assert es[0] == (a + "." + rel[0].0, rel[0].1);
      if inner.Some? {
        var m1 := m[a := Node(inner.value)];
        assert es[1..] == Under(a, rel[1..]);
        FoldUnderNode(m1, a, rel[1..]);
        var tail := UnflattenInto(inner.value, rel[1..]);
        if tail.Some? {
          assert m1[a := Node(tail.value)] == m[a := Node(tail.value)];
        }
      }
    }
  }

  /** The same for an object with nothing under `a` yet: the group's object is built from `{}`. */
  lemma FoldUnderFresh(m: map<string, Obj>, a: string, rel: seq<Entry>)
    requires '.' !in a && a !in m && |rel| >= 1
    requires forall i :: 0 <= i < |rel| ==> !Skipped(rel[i])
    ensures UnflattenInto(m, Under(a, rel)) == Wrap(m, a, UnflattenInto(map[], rel))
  {
    var es := Under(a, rel);
    StepIntoFresh(m, a, rel[0].0, rel[0].1.value);
    var f1 := SetPath(map[], Split(rel[0].0), rel[0].1.value).value;
    assert es[0] == (a + "." + rel[0].0, rel[0].1);
    var m1 := m[a := Node(f1)];
    assert es[1..] == Under(a, rel[1..]);
    FoldUnderNode(m1, a, rel[1..]);
    var tail := UnflattenInto(f1, rel[1..]);
    assert UnflattenInto(map[], rel) == tail;
    if tail.Some? {
      assert m1[a := Node(tail.value)] == m[a := Node(tail.value)];
    }
  }

  /** The walk for `a.k` where nothing is under `a` yet puts a fresh object there. */
  lemma StepIntoFresh(m: map<string, Obj>, a: string, k: string, v: string)
    requires '.' !in a && a !in m
    ensures SetPath(map[], Split(k), v).Some?
    ensures SetPath(m, Split(a + "." + k), v) == Some(m[a := Node(SetPath(map[], Split(k), v).value)])
  {
    SplitDot(a, k);
    var path := [a] + Split(k);
    assert path[0] == a && path[1..] == Split(k);
    SetPathIntoEmpty(Split(k), v);
  }

  /** A group's inputs, submitted, are its own inputs submitted under the group's name. */
  lemma GroupSubmitted(a: string, sub: seq<FieldEntry>, values: string -> string)
    ensures Submitted(FieldNames(sub, a + "."), values) ==
      Under(a, Submitted(FieldNames(sub, ""), (s: string) => values(a + "." + s)))
  {
    assert a + "." + "" == a + ".";
    FieldNamesShift(sub, a + ".", "");
  }

  /** One field walked into an object without its name: the field's value lands under its name. */
  lemma {:induction false} EntryRoundTrip(e: FieldEntry, values: string -> string, acc: map<string, Obj>)
    requires WfEntry(e) && e.name !in acc
    requires forall n :: values(n) != ""
    ensures UnflattenInto(acc, Submitted(EntryNames(e, ""), values)) == Some(acc[e.name := EntryValue(e, values)])
    decreases e
  {
    match e.field
    case Tag(_) =>
      assert "" + e.name == e.name;
      SplitNoDot(e.name);
      var es := Submitted(EntryNames(e, ""), values);
      assert es == [(e.name, Some(values(e.name)))] && es[1..] == [];
    case Group(sub) =>
      assert "" + e.name + "." == e.name + ".";
      var inner := (s: string) => values(e.name + "." + s);
      GroupSubmitted(e.name, sub, values);
      var rel := Submitted(FieldNames(sub, ""), inner);
      NamesNonEmpty(sub, "");
      FoldUnderFresh(acc, e.name, rel);
      FieldsRoundTrip(sub, inner, map[]);
      assert map[] + Expected(sub, inner) == Expected(sub, inner);
  }

  /**
   * The round trip: the inputs `fieldsToHtml` names, filled in and submitted,
   * come back out of `prefixedRecordIntoObject` as an object nested exactly as
   * the fields are, added to `acc`.
   */
  lemma {:induction false} FieldsRoundTrip(fields: seq<FieldEntry>, values: string -> string, acc: map<string, Obj>)
    requires WfFields(fields)
    requires forall i :: 0 <= i < |fields| ==> fields[i].name !in acc
    requires forall n :: values(n) != ""
    ensures UnflattenInto(acc, Submitted(FieldNames(fields, ""), values)) == Some(acc + Expected(fields, values))
    decreases fields
  {
    if fields == [] {
      assert acc + map[] == acc;
    } else {
      var e := fields[0];
      var rest := fields[1..];
      var a := EntryNames(e, "");
      var b := FieldNames(rest, "");
      SubmittedConcat(a, b, values);
      UnflattenConcat(acc, Submitted(a, values), Submitted(b, values));
      var x := EntryValue(e, values);
      TailWf(fields, acc, x);
      EntryRoundTrip(e, values, acc);
      FieldsRoundTrip(rest, values, acc[e.name := x]);
      ExpectedKeys(rest, values, e.name);
      MergeFirst(acc, Expected(rest, values), e.name, x);
    }
  }

  /** Adding `k` to `acc` first and merging `rest`, which lacks `k`, is merging `rest` with `k` added. */
  lemma MergeFirst(acc: map<string, Obj>, rest: map<string, Obj>, k: string, x: Obj)
    requires k !in rest
    ensures acc[k := x] + rest == acc + rest[k := x]
  {
  }

  lemma SubmittedConcat(a: seq<string>, b: seq<string>, values: string -> string)
    ensures Submitted(a + b, values) == Submitted(a, values) + Submitted(b, values)
  {
  }

  /** The fields after the first are well formed too, and none is named like the first. */
  lemma TailWf(fields: seq<FieldEntry>, acc: map<string, Obj>, x: Obj)
    requires |fields| >= 1 && WfFields(fields)
    requires forall i :: 0 <= i < |fields| ==> fields[i].name !in acc
    ensures WfEntry(fields[0]) && WfFields(fields[1..])
    ensures forall i :: 0 <= i < |fields[1..]| ==> fields[1..][i].name !in acc[fields[0].name := x]
    ensures !exists i :: 0 <= i < |fields[1..]| && fields[1..][i].name == fields[0].name
  {
    var rest := fields[1..];
    forall i | 0 <= i < |rest| ensures WfEntry(rest[i]) && rest[i].name != fields[0].name && rest[i].name !in acc {
      assert rest[i] == fields[i + 1];
    }
  }

  /** What submitting a whole form gives: the object its fields describe. */
  lemma FormRoundTrip(fields: seq<FieldEntry>, values: string -> string)
    requires WfFields(fields)
    requires forall n :: values(n) != ""
    ensures UnflattenInto(map[], Submitted(FieldNames(fields, ""), values)) == Some(Expected(fields, values))
  {
    FieldsRoundTrip(fields, values, map[]);
    assert map[] + Expected(fields, values) == Expected(fields, values);
  }
}
