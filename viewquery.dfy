/**
  The SQL text and parameter list that the two view reads assemble from
  their optional `maincro` and `subcro` filters, what the resulting `WHERE`
  clause selects, and the part of PostgreSQL's `LIKE` that the user view
  relies on.
 */
module ViewQuery {
  import opened Wrappers
  import opened Text

  /** A filter argument is used only when it is truthy: given and non-empty. */
  predicate Supplied(f: Option<string>) {
    f.Some? && f.value != ""
  }

  datatype Op = Equals | Like

  /** One predicate of the `WHERE` clause: a view column compared with a placeholder. */
  datatype Condition = Condition(column: string, op: Op)

  /** ` <column> = $n` or ` <column> LIKE $n`. */
  function ConditionText(c: Condition, n: nat): string {
    " " + c.column + (if c.op == Equals then " = $" else " LIKE $") + NatText(n)
  }

  /** The conditions, numbered from `n` on, joined by " AND". */
  function Conjunction(cs: seq<Condition>, n: nat): string
    decreases |cs|
  {
    if |cs| == 0 then ""
    else if |cs| == 1 then ConditionText(cs[0], n)
    else ConditionText(cs[0], n) + " AND" + Conjunction(cs[1..], n + 1)
  }

  /** The statement text for a list of conditions: no `WHERE` at all when there are none. */
  function Render(base: string, cs: seq<Condition>): string {
    if cs == [] then base else base + " WHERE" + Conjunction(cs, 1)
  }

  /** The conditions a pair of filters produces; the maincro one compares with `maincroOp`. */
  function Conditions(maincro: Option<string>, subcroName: Option<string>, maincroOp: Op): seq<Condition> {
    (if Supplied(maincro) then [Condition("maincro", maincroOp)] else [])
    + (if Supplied(subcroName) then [Condition("subcro", Equals)] else [])
  }

  /** The parameter bound to the maincro placeholder: the value itself, or `%value%` for `LIKE`. */
  function MaincroParam(maincro: string, maincroOp: Op): string {
    if maincroOp == Like then "%" + maincro + "%" else maincro
  }

  /** The parameters a pair of filters produces, in placeholder order. */
  function Params(maincro: Option<string>, subcroName: Option<string>, maincroOp: Op): seq<string> {
    (if Supplied(maincro) then [MaincroParam(maincro.value, maincroOp)] else [])
    + (if Supplied(subcroName) then [subcroName.value] else [])
  }

  const HotelViewBase := "SELECT * FROM hotel_maincro_subcro"
  const UserViewBase := "SELECT * FROM user_maincro_subcro"

  /**
    Builds the statement step by step, as the storage layer does: ` WHERE`
    when either filter is supplied, then the maincro predicate as `$1`, then
    ` AND` when both are supplied and the subcro predicate numbered after
    the parameters already pushed.
   */
  method BuildViewQuery(base: string, maincro: Option<string>, subcroName: Option<string>, maincroOp: Op)
    returns (query: string, params: seq<string>)
    ensures query == Render(base, Conditions(maincro, subcroName, maincroOp))
    ensures params == Params(maincro, subcroName, maincroOp)
  {
    query := base;
    params := [];
    if Supplied(maincro) || Supplied(subcroName) {
      query := query + " WHERE";
      if Supplied(maincro) {
        query := query + (if maincroOp == Equals then " maincro = $1" else " maincro LIKE $1");
        params := params + [MaincroParam(maincro.value, maincroOp)];
      }
      if Supplied(subcroName) {
        if Supplied(maincro) {
          query := query + " AND";
        }
        query := query + " subcro = $" + NatText(|params| + 1);
        params := params + [subcroName.value];
      }
    }
    var cs := Conditions(maincro, subcroName, maincroOp);
    var m := Condition("maincro", maincroOp);
    var s := Condition("subcro", Equals);
    if Supplied(maincro) && Supplied(subcroName) {
      assert cs == [m, s];
      RenderTwo(base, m, s);
      MaincroText(maincroOp);
      SubcroText(2);
    } else if Supplied(maincro) {
      assert cs == [m];
      RenderOne(base, m);
      MaincroText(maincroOp);
    } else if Supplied(subcroName) {
      assert cs == [s];
      RenderOne(base, s);
      SubcroText(1);
    }
  }

  /** The maincro condition, always the first: `$1`, compared with `=` or `LIKE`. */
  lemma MaincroText(maincroOp: Op)
    ensures ConditionText(Condition("maincro", maincroOp), 1)
      == (if maincroOp == Equals then " maincro = $1" else " maincro LIKE $1")
  {
    assert NatText(1) == "1";
  }

  /** The subcro condition, numbered after the maincro one when that is present. */
  lemma SubcroText(n: nat)
    ensures ConditionText(Condition("subcro", Equals), n) == " subcro = $" + NatText(n)
  {
  }

  /** A single condition follows ` WHERE` directly. */
  lemma RenderOne(base: string, c: Condition)
    ensures Render(base, [c]) == base + " WHERE" + ConditionText(c, 1)
  {
  }

  /** Two conditions are numbered 1 and 2 and joined by ` AND`. */
  lemma RenderTwo(base: string, c: Condition, d: Condition)
    ensures Render(base, [c, d]) == base + " WHERE" + ConditionText(c, 1) + " AND" + ConditionText(d, 2)
  {
    assert [c, d][1..] == [d];
    var x, y := ConditionText(c, 1), ConditionText(d, 2);
    assert Conjunction([c, d], 1) == x + " AND" + y;
    assert base + " WHERE" + (x + " AND" + y) == base + " WHERE" + x + " AND" + y;
  }

  /** With neither filter the statement is the bare view read; otherwise there is one parameter per filter. */
  lemma QueryShape(base: string, maincro: Option<string>, subcroName: Option<string>, maincroOp: Op)
    ensures var cs := Conditions(maincro, subcroName, maincroOp);
      && (Render(base, cs) == base <==> !Supplied(maincro) && !Supplied(subcroName))
      && |Params(maincro, subcroName, maincroOp)| == |cs|
         == (if Supplied(maincro) then 1 else 0) + (if Supplied(subcroName) then 1 else 0)
  {
    var cs := Conditions(maincro, subcroName, maincroOp);
    if cs != [] {
      assert |Render(base, cs)| > |base|;
    }
  }

  /** Both filters give `maincro` as `$1` and `subcro` as `$2`, joined by `AND`. */
  lemma BothFiltersText(base: string, m: string, s: string, maincroOp: Op)
    requires m != "" && s != ""
    ensures Render(base, Conditions(Some(m), Some(s), maincroOp))
      == base + " WHERE" + (if maincroOp == Equals then " maincro = $1" else " maincro LIKE $1") + " AND subcro = $2"
    ensures Params(Some(m), Some(s), maincroOp) == [MaincroParam(m, maincroOp), s]
  {
    var mc, sc := Condition("maincro", maincroOp), Condition("subcro", Equals);
    assert Conditions(Some(m), Some(s), maincroOp) == [mc, sc];
    RenderTwo(base, mc, sc);
    MaincroText(maincroOp);
    SecondSubcroText(base + " WHERE" + ConditionText(mc, 1));
  }

  /** The subcro condition after the maincro one reads ` AND subcro = $2`. */
  lemma SecondSubcroText(head: string)
    ensures head + " AND" + ConditionText(Condition("subcro", Equals), 2) == head + " AND subcro = $2"
  {
    assert ConditionText(Condition("subcro", Equals), 2) == " subcro = $2" by {
      assert NatText(2) == "2";
    }
    assert head + " AND" + " subcro = $2" == head + (" AND" + " subcro = $2");
    assert " AND" + " subcro = $2" == " AND subcro = $2";
  }

  // ---------------------------------------------------------------------------
  // What the statement selects

  /** The view column a condition names (both views have `maincro` and `subcro`). */
  function Column(name: string, maincro: string, subcro: string): (v: string)
    ensures name == "maincro" ==> v == maincro
    ensures name == "subcro" ==> v == subcro
  {
    if name == "maincro" then maincro else if name == "subcro" then subcro else ""
  }

  function Compare(op: Op, value: string, param: string): bool {
    match op
    case Equals => value == param
    case Like => LikeMatch(value, param)
  }

  /** A row with these column values satisfies every condition with its own parameter. */
  predicate Selects(cs: seq<Condition>, params: seq<string>, maincro: string, subcro: string)
    requires |cs| == |params|
  {
    forall i :: 0 <= i < |cs| ==> Compare(cs[i].op, Column(cs[i].column, maincro, subcro), params[i])
  }

  /** Conditions joined by `AND`: the row must satisfy both parts. */
  lemma SelectsAppend(c1: seq<Condition>, p1: seq<string>, c2: seq<Condition>, p2: seq<string>, maincro: string, subcro: string)
    requires |c1| == |p1| && |c2| == |p2|
    ensures Selects(c1 + c2, p1 + p2, maincro, subcro)
      <==> Selects(c1, p1, maincro, subcro) && Selects(c2, p2, maincro, subcro)
  {
    var cs, ps := c1 + c2, p1 + p2;
    assert forall i :: 0 <= i < |c1| ==> cs[i] == c1[i] && ps[i] == p1[i];
    assert forall i :: 0 <= i < |c2| ==> cs[|c1| + i] == c2[i] && ps[|p1| + i] == p2[i];
    if Selects(c1, p1, maincro, subcro) && Selects(c2, p2, maincro, subcro) {
      forall i | 0 <= i < |cs| ensures Compare(cs[i].op, Column(cs[i].column, maincro, subcro), ps[i]) {
        if i >= |c1| {
          assert cs[i] == c2[i - |c1|] && ps[i] == p2[i - |c1|];
        }
      }
    }
  }

  /** The row selected by the conditions of both filters, given the meaning of the maincro one. */
  lemma SelectsFilters(maincro: Option<string>, subcroName: Option<string>, maincroOp: Op, rowMaincro: string, rowSubcro: string)
    ensures |Conditions(maincro, subcroName, maincroOp)| == |Params(maincro, subcroName, maincroOp)|
    ensures Selects(Conditions(maincro, subcroName, maincroOp), Params(maincro, subcroName, maincroOp), rowMaincro, rowSubcro)
      <==> ((Supplied(maincro) ==> Compare(maincroOp, rowMaincro, MaincroParam(maincro.value, maincroOp)))
           && (Supplied(subcroName) ==> rowSubcro == subcroName.value))
  {
    var c1: seq<Condition> := if Supplied(maincro) then [Condition("maincro", maincroOp)] else [];
    var c2: seq<Condition> := if Supplied(subcroName) then [Condition("subcro", Equals)] else [];
    var p1: seq<string> := if Supplied(maincro) then [MaincroParam(maincro.value, maincroOp)] else [];
    var p2: seq<string> := if Supplied(subcroName) then [subcroName.value] else [];
    SelectsAppend(c1, p1, c2, p2, rowMaincro, rowSubcro);
    if Supplied(maincro) {
      assert Selects(c1, p1, rowMaincro, rowSubcro) <==> Compare(c1[0].op, Column(c1[0].column, rowMaincro, rowSubcro), p1[0]);
    }
    if Supplied(subcroName) {
      assert Selects(c2, p2, rowMaincro, rowSubcro) <==> Compare(c2[0].op, Column(c2[0].column, rowMaincro, rowSubcro), p2[0]);
    }
  }

  /** The hotel view statement selects exactly the rows that equal every supplied filter. */
  lemma HotelViewSelects(maincro: Option<string>, subcroName: Option<string>, rowMaincro: string, rowSubcro: string)
    ensures |Conditions(maincro, subcroName, Equals)| == |Params(maincro, subcroName, Equals)|
    ensures Selects(Conditions(maincro, subcroName, Equals), Params(maincro, subcroName, Equals), rowMaincro, rowSubcro)
      <==> (Supplied(maincro) ==> rowMaincro == maincro.value) && (Supplied(subcroName) ==> rowSubcro == subcroName.value)
  {
    SelectsFilters(maincro, subcroName, Equals, rowMaincro, rowSubcro);
  }

  /**
    The user view statement selects the rows whose maincro contains the
    filter (as long as the filter holds no `LIKE` wildcard) and whose subcro
    equals the subcro filter.
   */
  lemma UserViewSelects(maincro: Option<string>, subcroName: Option<string>, rowMaincro: string, rowSubcro: string)
    requires Supplied(maincro) ==> NoWildcard(maincro.value)
    ensures |Conditions(maincro, subcroName, Like)| == |Params(maincro, subcroName, Like)|
    ensures Selects(Conditions(maincro, subcroName, Like), Params(maincro, subcroName, Like), rowMaincro, rowSubcro)
      <==> (Supplied(maincro) ==> Contains(rowMaincro, maincro.value)) && (Supplied(subcroName) ==> rowSubcro == subcroName.value)
  {
    SelectsFilters(maincro, subcroName, Like, rowMaincro, rowSubcro);
    if Supplied(maincro) {
      LikeContains(rowMaincro, maincro.value);
    }
  }

  // ---------------------------------------------------------------------------
  // PostgreSQL LIKE: `%` matches any run, `_` any one character, `\` escapes

  function LikeMatch(t: string, p: string): bool
    decreases |p|, |t|
  {
    if p == [] then t == []
    else if p[0] == '%' then LikeMatch(t, p[1..]) || (t != [] && LikeMatch(t[1..], p))
    else if p[0] == '_' then t != [] && LikeMatch(t[1..], p[1..])
    else if p[0] == '\\' && |p| > 1 then t != [] && t[0] == p[1] && LikeMatch(t[1..], p[2..])
    else t != [] && t[0] == p[0] && LikeMatch(t[1..], p[1..])
  }

  predicate NoWildcard(s: string) {
    forall i :: 0 <= i < |s| ==> s[i] != '%' && s[i] != '_' && s[i] != '\\'
  }

  lemma {:induction false} LikeAnything(t: string)
    ensures LikeMatch(t, "%")
    decreases |t|
  {
    if t != [] {
      LikeAnything(t[1..]);
    }
  }

  /** A literal followed by `%` matches exactly the texts that start with the literal. */
  lemma {:induction false} LikePrefix(t: string, m: string)
    requires NoWildcard(m)
    ensures LikeMatch(t, m + "%") <==> IsPrefix(m, t)
    decreases |m|
  {
    if m == [] {
      assert m + "%" == "%";
      LikeAnything(t);
    } else {
      assert (m + "%")[0] == m[0] && (m + "%")[1..] == m[1..] + "%";
      if t != [] {
        LikePrefix(t[1..], m[1..]);
        if |m| <= |t| {
          assert t[..|m|] == [t[0]] + t[1..][..|m| - 1];
          assert m == [m[0]] + m[1..];
        }
      }
    }
  }

  /** `LIKE '%m%'` is `includes(m)` when `m` has no wildcard. */
  lemma {:induction false} LikeContains(t: string, m: string)
    requires NoWildcard(m)
    ensures LikeMatch(t, "%" + m + "%") <==> Contains(t, m)
    decreases |t|
  {
    var p := "%" + m + "%";
    assert p[0] == '%' && p[1..] == m + "%";
    LikePrefix(t, m);
    if t != [] {
      LikeContains(t[1..], m);
    }
  }
}
