/**
 * The Slack-user to Splitwise-member mapping, kept as text in the `details`
 * field of one designated Splitwise expense.
 *
 * Saving writes one `key=value` line per entry (server.js:47). Loading splits
 * the text into lines and each line at `=`, transposes the rows into a column
 * of left sides and a column of right sides, reverses the two columns and zips
 * them into an object (server.js:41-43). Because of the reversal, the RIGHT
 * side of each line becomes the key: loading what was saved swaps keys and
 * values. The model keeps that behaviour.
 */
module UserMapping {
  import opened Strings

  /** A JavaScript object with string keys and string values. */
  type Mapping = map<string, string>

  /** One `[key, value]` entry, as `R.toPairs` produces it. */
  type Pair = (string, string)

  /** `R.assoc(key, value, m)`: a new mapping with `key` bound to `value`; `m` itself is a value and is not changed. */
  function Assoc(m: Mapping, key: string, value: string): (r: Mapping)
    ensures r.Keys == m.Keys + {key}
    ensures r[key] == value
    ensures forall k :: k in m && k != key ==> r[k] == m[k]
  {
    m[key := value]
  }

  // ---------------------------------------------------------------------------
  // Saving: R.toPairs(mapping).map(pair => pair.join('=')).join('\n')
  // ---------------------------------------------------------------------------

  ghost predicate DistinctKeys(pairs: seq<Pair>)
  {
    forall i, j :: 0 <= i < j < |pairs| ==> pairs[i].0 != pairs[j].0
  }

  function KeyColumn(pairs: seq<Pair>): (keys: seq<string>)
  {
    seq(|pairs|, i requires 0 <= i < |pairs| => pairs[i].0)
  }

  function ValueColumn(pairs: seq<Pair>): (values: seq<string>)
  {
    seq(|pairs|, i requires 0 <= i < |pairs| => pairs[i].1)
  }

  /** `pairs` lists every entry of `m` exactly once, in some order. */
  ghost predicate IsPairsOf(pairs: seq<Pair>, m: Mapping)
  {
    && DistinctKeys(pairs)
    && (forall i :: 0 <= i < |pairs| ==> pairs[i].0 in m && m[pairs[i].0] == pairs[i].1)
    && (forall k :: k in m ==> k in KeyColumn(pairs))
  }

  /**
   * `R.toPairs(m)`: the entries of `m`. The order of an object's keys is not
   * modelled, so each step takes any key not yet listed.
   */
  method ToPairs(m: Mapping) returns (pairs: seq<Pair>)
    ensures IsPairsOf(pairs, m)
  {
    pairs := [];
    var rest := m.Keys;
    while rest != {}
      invariant rest <= m.Keys
      invariant DistinctKeys(pairs)
      invariant forall i :: 0 <= i < |pairs| ==> pairs[i].0 in m && pairs[i].0 !in rest && m[pairs[i].0] == pairs[i].1
      invariant forall k :: k in m ==> k in rest || k in KeyColumn(pairs)
      decreases rest
    {
      var k :| k in rest;
      assert KeyColumn(pairs + [(k, m[k])]) == KeyColumn(pairs) + [k];
      pairs := pairs + [(k, m[k])];
      rest := rest - {k};
    }
  }

  /** `pair.join('=')`. */
  function Line(p: Pair): (line: string)
  {
    Join([p.0, p.1], '=')
  }

  function Lines(pairs: seq<Pair>): (lines: seq<string>)
  {
    seq(|pairs|, i requires 0 <= i < |pairs| => Line(pairs[i]))
  }

  /** The lines written for clean entries hold no line break. */
  lemma LinesAvoidBreak(pairs: seq<Pair>)
    ensures CleanPairs(pairs) ==> forall i :: 0 <= i < |Lines(pairs)| ==> '\n' !in Lines(pairs)[i]
  {
  }

  /**
   * The `details` text written for the entries `pairs`, in that order: empty
   * for no entries, and for clean entries holding a line break exactly when
   * there are at least two.
   */
  function Serialise(pairs: seq<Pair>): (details: string)
    ensures pairs == [] ==> details == ""
    ensures CleanPairs(pairs) ==> ('\n' in details <==> |pairs| >= 2)
  {
    LinesAvoidBreak(pairs);
    Join(Lines(pairs), '\n')
  }

  /** `details` is what saving `m` writes, for some order of its entries. */
  ghost predicate SerialisesTo(details: string, m: Mapping)
  {
    exists pairs :: IsPairsOf(pairs, m) && details == Serialise(pairs)
  }

  /** `setUserMapping(m)`: the text posted as the designated expense's new `details`. */
  method Save(m: Mapping) returns (details: string)
    ensures SerialisesTo(details, m)
  {
    var pairs := ToPairs(m);
    details := Serialise(pairs);
  }

  // ---------------------------------------------------------------------------
  // Loading: R.apply(R.zipObj, R.reverse(R.transpose(details.split('\n').map(line => line.split('=')))))
  // ---------------------------------------------------------------------------

  /** `details.split('\n').map(line => line.split('='))`. */
  function Rows(details: string): (rows: seq<seq<string>>)
    ensures |rows| == |Split(details, '\n')|
    ensures forall i :: 0 <= i < |rows| ==> Join(rows[i], '=') == Split(details, '\n')[i]
  {
    var lines := Split(details, '\n');
    assert forall i :: 0 <= i < |lines| ==> Join(Split(lines[i], '='), '=') == lines[i] by {
      forall i | 0 <= i < |lines| {
        JoinSplit(lines[i], '=');
      }
    }
    seq(|lines|, i requires 0 <= i < |lines| => Split(lines[i], '='))
  }

  /** Every line holds exactly one `=`: the only input on which loading is modelled. */
  predicate WellFormed(details: string)
  {
    var lines := Split(details, '\n');
    forall i :: 0 <= i < |lines| ==> |Split(lines[i], '=')| == 2
  }

  function Column(rows: seq<seq<string>>, c: nat): (column: seq<string>)
    requires forall i :: 0 <= i < |rows| ==> c < |rows[i]|
  {
    seq(|rows|, i requires 0 <= i < |rows| => rows[i][c])
  }

  /** `R.transpose` of rows that all have two cells: the column of left sides and the column of right sides. */
  function Transpose(rows: seq<seq<string>>): (columns: seq<seq<string>>)
    requires forall i :: 0 <= i < |rows| ==> |rows[i]| == 2
    ensures |columns| == 2 && |columns[0]| == |rows| && |columns[1]| == |rows|
    ensures forall i :: 0 <= i < |rows| ==> rows[i] == [columns[0][i], columns[1][i]]
  {
    [Column(rows, 0), Column(rows, 1)]
  }

  /** `R.reverse`. */
  function Reverse<T>(s: seq<T>): (r: seq<T>)
    ensures |r| == |s|
    ensures forall i :: 0 <= i < |s| ==> r[i] == s[|s| - 1 - i]
  {
    if s == [] then [] else Reverse(s[1..]) + [s[0]]
  }

  /** The last position of `keys` that holds `k`. */
  function LastIndex(keys: seq<string>, k: string): (i: nat)
    requires k in keys
    ensures i < |keys| && keys[i] == k
    ensures forall j :: i < j < |keys| ==> keys[j] != k
  {
    var n := |keys| - 1;
    if keys[n] == k then n
    else
      assert keys == keys[..n] + [keys[n]];
      LastIndex(keys[..n], k)
  }

  /** Dropping a last element other than `k` keeps the last position of `k`. */
  lemma LastIndexOfPrefix(keys: seq<string>, k: string)
    requires k in keys && keys[|keys| - 1] != k
    ensures k in keys[..|keys| - 1]
    ensures LastIndex(keys, k) == LastIndex(keys[..|keys| - 1], k)
  {
    assert keys == keys[..|keys| - 1] + [keys[|keys| - 1]];
  }

  /** `m` is the object zipped from `keys` and `values`, a later key overriding an earlier equal one. */
  ghost predicate IsZipOf(m: Mapping, keys: seq<string>, values: seq<string>)
    requires |keys| == |values|
  {
    && (forall k :: k in m ==> k in keys && m[k] == values[LastIndex(keys, k)])
    && (forall i :: 0 <= i < |keys| ==> keys[i] in m)
  }

  /** Assigning the last key to the object zipped from the earlier keys gives the object zipped from all of them. */
  lemma ZipStep(keys: seq<string>, values: seq<string>, prefix: Mapping)
    requires |keys| == |values| >= 1
    requires IsZipOf(prefix, keys[..|keys| - 1], values[..|keys| - 1])
    ensures IsZipOf(prefix[keys[|keys| - 1] := values[|keys| - 1]], keys, values)
  {
    var n := |keys| - 1;
    var m := prefix[keys[n] := values[n]];
    assert keys == keys[..n] + [keys[n]];
    forall k | k in m ensures k in keys && m[k] == values[LastIndex(keys, k)] {
      if k != keys[n] {
        assert k in keys[..n];
        LastIndexOfPrefix(keys, k);
      }
    }
    forall i | 0 <= i < n ensures keys[i] in m {
      assert keys[..n][i] == keys[i];
    }
  }

  /**
   * `R.zipObj(keys, values)` for columns of equal length: the keys are
   * assigned in order, so a later key overrides an earlier equal one.
   */
  function ZipObj(keys: seq<string>, values: seq<string>): (m: Mapping)
    requires |keys| == |values|
    ensures forall k :: k in m ==> k in keys
    ensures forall i :: 0 <= i < |keys| ==> keys[i] in m
    ensures forall k :: k in m ==> m[k] == values[LastIndex(keys, k)]
  {
    if keys == [] then map[]
    else
      var n := |keys| - 1;
      var prefix := ZipObj(keys[..n], values[..n]);
      ZipStep(keys, values, prefix);
      prefix[keys[n] := values[n]]
  }

  /** The left side of every line of well-formed `details`. */
  function Lefts(details: string): (lefts: seq<string>)
    requires WellFormed(details)
  {
    Column(Rows(details), 0)
  }

  /** The right side of every line of well-formed `details`. */
  function Rights(details: string): (r: seq<string>)
    requires WellFormed(details)
    ensures |r| == |Lefts(details)|
  {
    Column(Rows(details), 1)
  }

  /** No side of a line of well-formed text holds a `=` or a line break. */
  lemma SidesClean(details: string)
    requires WellFormed(details)
    ensures forall i :: 0 <= i < |Lefts(details)| ==> '=' !in Lefts(details)[i] && '\n' !in Lefts(details)[i]
    ensures forall i :: 0 <= i < |Rights(details)| ==> '=' !in Rights(details)[i] && '\n' !in Rights(details)[i]
  {
  }

  /**
   * `getUserMapping`'s parse of the fetched `details`: the right sides of the
   * lines are the keys, each bound to the left side of the last line with
   * that right side.
   */
  function Parse(details: string): (m: Mapping)
    requires WellFormed(details)
    ensures forall k :: k in m ==> k in Rights(details)
    ensures forall i :: 0 <= i < |Rights(details)| ==> Rights(details)[i] in m
    ensures forall k :: k in m ==> m[k] == Lefts(details)[LastIndex(Rights(details), k)]
    ensures Clean(m)
  {
    SidesClean(details);
    var columns := Transpose(Rows(details));
    var reversed := Reverse(columns);
    assert reversed == [Rights(details), Lefts(details)];
    ZipObj(reversed[0], reversed[1])
  }

  // ---------------------------------------------------------------------------
  // Loading what was saved
  // ---------------------------------------------------------------------------

  /** No key or value holds a `=` or a line break. */
  ghost predicate Clean(m: Mapping)
  {
    forall k :: k in m ==> '=' !in k && '\n' !in k && '=' !in m[k] && '\n' !in m[k]
  }

  /** No key or value of the entries holds a `=` or a line break. */
  ghost predicate CleanPairs(pairs: seq<Pair>)
  {
    forall i :: 0 <= i < |pairs| ==>
      '=' !in pairs[i].0 && '\n' !in pairs[i].0 && '=' !in pairs[i].1 && '\n' !in pairs[i].1
  }

  /** The text written for at least one clean entry splits back into one line per entry. */
  lemma {:induction false} SerialisedLines(pairs: seq<Pair>)
    requires |pairs| >= 1 && CleanPairs(pairs)
    ensures Split(Serialise(pairs), '\n') == Lines(pairs)
  {
    var lines := Lines(pairs);
    forall i | 0 <= i < |lines| ensures '\n' !in lines[i] {
      JoinAvoids([pairs[i].0, pairs[i].1], '=', '\n');
    }
    SplitJoin(lines, '\n');
  }

  /**
   * Saving at least one clean entry writes well-formed text whose lines have
   * the entries' keys on the left and their values on the right, in order.
   */
  lemma {:induction false} SerialisedColumns(pairs: seq<Pair>)
    requires |pairs| >= 1 && CleanPairs(pairs)
    ensures WellFormed(Serialise(pairs))
    ensures Lefts(Serialise(pairs)) == KeyColumn(pairs)
    ensures Rights(Serialise(pairs)) == ValueColumn(pairs)
  {
    SerialisedLines(pairs);
    var rows := Rows(Serialise(pairs));
    assert |rows| == |pairs|;
    forall i | 0 <= i < |rows| ensures rows[i] == [pairs[i].0, pairs[i].1] {
      SplitJoin([pairs[i].0, pairs[i].1], '=');
    }
  }

  /**
   * Loading what was saved for at least one clean entry keys the result by
   * the entries' values, binding each to the key of the last entry holding it.
   */
  lemma LoadSerialised(pairs: seq<Pair>)
    requires |pairs| >= 1 && CleanPairs(pairs)
    ensures WellFormed(Serialise(pairs))
    ensures forall v :: v in Parse(Serialise(pairs)) ==> v in ValueColumn(pairs)
    ensures forall i :: 0 <= i < |pairs| ==> ValueColumn(pairs)[i] in Parse(Serialise(pairs))
    ensures forall v :: v in Parse(Serialise(pairs)) ==>
      Parse(Serialise(pairs))[v] == KeyColumn(pairs)[LastIndex(ValueColumn(pairs), v)]
  {
    SerialisedColumns(pairs);
  }

  /** Saving a non-empty clean mapping writes well-formed text. */
  lemma SavedWellFormed(m: Mapping, details: string)
    requires Clean(m) && m != map[] && SerialisesTo(details, m)
    ensures WellFormed(details)
  {
    var pairs: seq<Pair> :| IsPairsOf(pairs, m) && details == Serialise(pairs);
    PairsOfClean(pairs, m);
    SerialisedColumns(pairs);
  }

  /** Binding a key to a value, neither holding `=` or a line break, keeps a mapping clean. */
  lemma AssocClean(m: Mapping, key: string, value: string)
    requires Clean(m) && '=' !in key && '\n' !in key && '=' !in value && '\n' !in value
    ensures Clean(Assoc(m, key, value))
  {
  }

  /** The entries of a clean mapping are clean, and there is one when the mapping is not empty. */
  lemma PairsOfClean(pairs: seq<Pair>, m: Mapping)
    requires IsPairsOf(pairs, m) && Clean(m)
    ensures CleanPairs(pairs)
    ensures m != map[] ==> |pairs| >= 1
  {
  }

  /** The values of a mapping are the value column of its entries. */
  lemma ValuesOfPairs(pairs: seq<Pair>, m: Mapping)
    requires IsPairsOf(pairs, m)
    ensures forall v :: v in m.Values <==> v in ValueColumn(pairs)
  {
    forall v | v in m.Values ensures v in ValueColumn(pairs) {
      var k :| k in m && m[k] == v;
      var i :| 0 <= i < |pairs| && KeyColumn(pairs)[i] == k;
      assert ValueColumn(pairs)[i] == v;
    }
  }

  /** The mapping is one-to-one: no two keys share a value. */
  ghost predicate Injective(m: Mapping)
  {
    forall a, b :: a in m && b in m && a != b ==> m[a] != m[b]
  }

  /**
   * Zipping the value column of a one-to-one mapping's entries (as keys)
   * with their key column (as values) swaps the mapping.
   */
  lemma SwapOfZip(pairs: seq<Pair>, m: Mapping, r: Mapping)
    requires IsPairsOf(pairs, m) && Injective(m)
    requires forall v :: v in r ==> v in ValueColumn(pairs)
    requires forall i :: 0 <= i < |pairs| ==> ValueColumn(pairs)[i] in r
    requires forall v :: v in r ==> r[v] == KeyColumn(pairs)[LastIndex(ValueColumn(pairs), v)]
    ensures r.Keys == m.Values
    ensures forall k :: k in m ==> r[m[k]] == k
  {
    var keys, values := KeyColumn(pairs), ValueColumn(pairs);
    ValuesOfPairs(pairs, m);
    assert r.Keys == m.Values by {
      forall v | v in values ensures v in r {
        var i :| 0 <= i < |values| && values[i] == v;
      }
    }
    forall k | k in m ensures r[m[k]] == k {
      var last := LastIndex(values, m[k]);
      var holder := pairs[last].0;
      assert holder in m && m[holder] == m[k];
    }
  }

  /**
   * Loading what saving a non-empty one-to-one mapping wrote gives the
   * mapping with keys and values swapped, whatever order the entries were
   * written in.
   */
  lemma {:induction false} LoadAfterSave(m: Mapping, details: string)
    requires SerialisesTo(details, m) && Clean(m) && Injective(m) && m != map[]
    ensures WellFormed(details)
    ensures Parse(details).Keys == m.Values
    ensures forall k :: k in m ==> Parse(details)[m[k]] == k
  {
    var pairs: seq<Pair> :| IsPairsOf(pairs, m) && details == Serialise(pairs);
    PairsOfClean(pairs, m);
    LoadSerialised(pairs);
    SwapOfZip(pairs, m, Parse(details));
  }

  /**
   * Loading what saving a clean mapping wrote binds a value that only one key
   * holds to that key.
   */
  lemma LoadBindsSoleHolder(m: Mapping, user: string, details: string)
    requires Clean(m) && user in m
    requires forall k :: k in m && k != user ==> m[k] != m[user]
    requires SerialisesTo(details, m)
    ensures WellFormed(details)
    ensures m[user] in Parse(details) && Parse(details)[m[user]] == user
  {
    var pairs: seq<Pair> :| IsPairsOf(pairs, m) && details == Serialise(pairs);
    PairsOfClean(pairs, m);
    LoadSerialised(pairs);
    ZipBindsSoleHolder(pairs, m, Parse(details), user);
  }

  /**
   * Registering `user` as Splitwise member `id` and loading the result back
   * binds the member id to the user (not the user to the id), provided no
   * other user already held that id.
   */
  lemma RegisterThenLoad(m: Mapping, user: string, id: string, details: string)
    requires Clean(m) && '=' !in user && '\n' !in user && '=' !in id && '\n' !in id
    requires forall k :: k in m && k != user ==> m[k] != id
    requires SerialisesTo(details, Assoc(m, user, id))
    ensures WellFormed(details)
    ensures id in Parse(details) && Parse(details)[id] == user
  {
    AssocClean(m, user, id);
    LoadBindsSoleHolder(Assoc(m, user, id), user, details);
  }

  /**
   * Zipping the value column of a mapping's entries with their key column
   * binds a value that only one key holds to that key.
   */
  lemma ZipBindsSoleHolder(pairs: seq<Pair>, m: Mapping, r: Mapping, user: string)
    requires IsPairsOf(pairs, m) && user in m
    requires forall k :: k in m && k != user ==> m[k] != m[user]
    requires forall v :: v in r ==> v in ValueColumn(pairs)
    requires forall i :: 0 <= i < |pairs| ==> ValueColumn(pairs)[i] in r
    requires forall v :: v in r ==> r[v] == KeyColumn(pairs)[LastIndex(ValueColumn(pairs), v)]
    ensures m[user] in r && r[m[user]] == user
  {
    var keys, values := KeyColumn(pairs), ValueColumn(pairs);
    var i :| 0 <= i < |keys| && keys[i] == user;
    assert values[i] == m[user];
    var last := LastIndex(values, m[user]);
    var holder := pairs[last].0;
    assert holder in m && m[holder] == m[user];
  }

  /** Saving `{U1: "7"}` writes `U1=7`, and loading that gives `{"7": "U1"}`. */
  lemma SwapExample()
    ensures Serialise([("U1", "7")]) == "U1=7"
    ensures WellFormed("U1=7") && Parse("U1=7") == map["7" := "U1"]
  {
    var pairs := [("U1", "7")];
    assert Line(pairs[0]) == "U1=7" by {
      assert ["U1", "7"][1..] == ["7"];
    }
    assert Lines(pairs) == ["U1=7"];
    SerialisedColumns(pairs);
    OneLine("U1=7");
  }

  /** Well-formed text of one line loads as that line's right side bound to its left side. */
  lemma OneLine(details: string)
    requires WellFormed(details) && |Rights(details)| == 1
    ensures Parse(details) == map[Rights(details)[0] := Lefts(details)[0]]
  {
    assert LastIndex(Rights(details), Rights(details)[0]) == 0;
  }
}
