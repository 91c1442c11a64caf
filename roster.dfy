/**
 * Finding the Splitwise group member named by the `register` arguments
 * (server.js:83-86): the first member, in roster order, for which one of
 * three clauses holds.
 */
module Roster {
  import opened Options
  import opened Strings

  /** A member of the Splitwise group, as `get_group` lists it. */
  datatype Member = Member(id: nat, firstName: string, lastName: string)

  /**
   * `member.id == args`, with `args` read as the decimal rendering of the id:
   * it holds exactly when `args` is a canonical digit string denoting the id.
   */
  function IdClause(m: Member, args: string): (b: bool)
    ensures b <==> Canonical(args) && Value(args) == m.id
  {
    RenderingIff(m.id, args);
    NatToString(m.id) == args
  }

  /**
   * What `member.first_name.toLowerCase` turns into when `==` compares it
   * with a string: the method itself is compared, not its result, and a
   * built-in function converts to this text.
   */
  const ToLowerCaseSource: string := "function toLowerCase() { [native code] }"

  /** The method's text holds an upper-case `L`, and a lower-cased string holds none. */
  lemma NativeTextIsNotLowered(args: string)
    ensures ToLowerCaseSource != Lower(args)
  {
    assert IsUpper(ToLowerCaseSource[11]);
    if |Lower(args)| > 11 {
      assert !IsUpper(Lower(args)[11]);
    }
  }

  /** `member.first_name.toLowerCase == args.toLowerCase()`: never holds, whatever the member and the arguments. */
  function FirstNameClause(m: Member, args: string): (b: bool)
    ensures !b
  {
    NativeTextIsNotLowered(args);
    ToLowerCaseSource == Lower(args)
  }

  /**
   * `(member.first_name + ' ' + member.last_name).toLowerCase() == args.toLowerCase()`:
   * the full name and the arguments agree up to ASCII case.
   */
  function FullNameClause(m: Member, args: string): (b: bool)
    ensures b <==> EqualIgnoringCase(m.firstName + " " + m.lastName, args)
  {
    LowerEqual(m.firstName + " " + m.lastName, args);
    Lower(m.firstName + " " + m.lastName) == Lower(args)
  }

  /**
   * The predicate given to `R.find`. A member matches exactly when its id
   * renders as the arguments or its full name equals them case-insensitively;
   * its first name alone never suffices.
   */
  function Matches(m: Member, args: string): (b: bool)
    ensures b <==> IdClause(m, args) || FullNameClause(m, args)
  {
    IdClause(m, args) || FirstNameClause(m, args) || FullNameClause(m, args)
  }

  /** `R.find(Matches, members)`: the first member that matches, or none. */
  function Find(members: seq<Member>, args: string): (r: Option<Member>)
    ensures r.None? <==> forall i :: 0 <= i < |members| ==> !Matches(members[i], args)
    ensures r.Some? ==> exists i :: (0 <= i < |members| && members[i] == r.value && Matches(r.value, args) &&
      forall j :: 0 <= j < i ==> !Matches(members[j], args))
  {
    if members == [] then None
    else if Matches(members[0], args) then Some(members[0])
    else
      var r := Find(members[1..], args);
      assert forall i :: 1 <= i < |members| ==> members[i] == members[1..][i - 1];
      if r.Some? then
        var k :| 0 <= k < |members[1..]| && members[1..][k] == r.value && Matches(r.value, args) &&
          forall j :: 0 <= j < k ==> !Matches(members[1..][j], args);
        assert members[k + 1] == r.value;
        r
      else
        r
  }

  /** `register` with no arguments finds nobody: no id renders as the empty text and no full name is empty. */
  lemma EmptyArgsFindNobody(members: seq<Member>)
    ensures Find(members, "") == None
  {
  }

  /**
   * The roster `[{id: 7, first_name: "Bob", last_name: "Lee"}]`: "7" and
   * "bob LEE" find the member, but the first name "Bob" alone does not.
   */
  lemma BobLeeExample()
    ensures Find([Member(7, "Bob", "Lee")], "7") == Some(Member(7, "Bob", "Lee"))
    ensures Find([Member(7, "Bob", "Lee")], "bob LEE") == Some(Member(7, "Bob", "Lee"))
    ensures Find([Member(7, "Bob", "Lee")], "Bob") == None
  {
  }
}
