/** The pure parts of the `User` model (app/models/user.py): the SET
    clauses and bound values `update_user` builds before it runs its query,
    and the email key `create_user` and `find_by_email` store and look up.
    The database and bcrypt are not modelled; the password hash is a
    function passed in. */
module Users {
  import opened Wrappers
  import opened Text

  /** `allowed_fields` of `update_user`. */
  const AllowedFields: set<string> := {"name", "email", "password"}

  /** The clause appended after the caller's fields. */
  const UpdatedAtClause: string := "updated_at = CURRENT_TIMESTAMP"

  /** A value bound to a `%s` of the query. */
  datatype Param = Str(s: string) | UserId(id: int)

  /** The SET clauses, the query text built from them and the values bound
      to its placeholders, `user_id` last. */
  datatype Update = Update(updates: seq<string>, query: string, values: seq<Param>)

  /** `**kwargs` of `update_user`, in call order; `None` is Python's None. */
  type Kwargs = seq<(string, Option<string>)>

  predicate Contributes(arg: (string, Option<string>)) {
    arg.0 in AllowedFields && arg.1.Some?
  }

  /** The clause one contributing argument adds. */
  function ClauseOf(key: string): string {
    if key == "password" then "password_hash = %s" else key + " = %s"
  }

  /** The value one contributing argument binds. */
  function ValueOf(key: string, value: string, hash: string -> string): Param {
    if key == "password" then Str(hash(value)) else Str(value)
  }

  /** The clauses the loop over `kwargs.items()` appends, in order. */
  function Clauses(kwargs: Kwargs): seq<string> {
    if kwargs == [] then []
    else
      var last := kwargs[|kwargs| - 1];
      Clauses(kwargs[..|kwargs| - 1]) + (if Contributes(last) then [ClauseOf(last.0)] else [])
  }

  /** The values the loop over `kwargs.items()` appends, in order. */
  function Values(kwargs: Kwargs, hash: string -> string): seq<Param> {
    if kwargs == [] then []
    else
      var last := kwargs[|kwargs| - 1];
      Values(kwargs[..|kwargs| - 1], hash)
        + (if Contributes(last) then [ValueOf(last.0, last.1.value, hash)] else [])
  }

  /** The clause builder of `update_user`: `None` when no field is to be
      changed, and then no query is issued; otherwise the clauses, the query
      and the values, one value per placeholder. */
  method BuildUpdate(userId: int, kwargs: Kwargs, hash: string -> string) returns (r: Option<Update>)
    ensures r.None? <==> forall i :: 0 <= i < |kwargs| ==> !Contributes(kwargs[i])
    ensures r.Some? ==> r.value.updates == Clauses(kwargs) + [UpdatedAtClause]
    ensures r.Some? ==> r.value.values == Values(kwargs, hash) + [UserId(userId)]
    ensures r.Some? ==> r.value.query == Query(r.value.updates)
    ensures r.Some? ==> |r.value.updates| == |r.value.values| >= 2
    ensures r.Some? ==> Placeholders(r.value.query) == |r.value.values|
  {
    var updates: seq<string> := [];
    var values: seq<Param> := [];
    var i := 0;
    while i < |kwargs|
      invariant 0 <= i <= |kwargs|
      invariant updates == Clauses(kwargs[..i])
      invariant values == Values(kwargs[..i], hash)
      invariant |updates| == |values|
    {
      PrefixStep(kwargs, i, hash);
      var (key, value) := kwargs[i];
      if key in AllowedFields && value.Some? {
        if key == "password" {
          updates := updates + ["password_hash = %s"];
          values := values + [Str(hash(value.value))];
        } else {
          updates := updates + [key + " = %s"];
          values := values + [Str(value.value)];
        }
      }
      i := i + 1;
    }
    assert kwargs[..i] == kwargs;
    ClausesEmptyIff(kwargs);
    if updates == [] {
      return None;
    }
    ClausesPlaceholders(kwargs);
    SetListWithUpdatedAt(updates);
    updates := updates + [UpdatedAtClause];
    QueryAround(updates, |updates| - 1);
    values := values + [UserId(userId)];
    r := Some(Update(updates, Query(updates), values));
  }

  /** One more keyword argument adds at most its own clause and value. */
  lemma PrefixStep(kwargs: Kwargs, i: nat, hash: string -> string)
    requires i < |kwargs|
    ensures Clauses(kwargs[..i + 1]) ==
      Clauses(kwargs[..i]) + (if Contributes(kwargs[i]) then [ClauseOf(kwargs[i].0)] else [])
    ensures Values(kwargs[..i + 1], hash) ==
      Values(kwargs[..i], hash) + (if Contributes(kwargs[i]) then [ValueOf(kwargs[i].0, kwargs[i].1.value, hash)] else [])
  {
    assert kwargs[..i + 1][..i] == kwargs[..i];
  }

  /** No clause is built exactly when no argument is an allowed field with a value. */
  lemma {:induction false} ClausesEmptyIff(kwargs: Kwargs)
    ensures Clauses(kwargs) == [] <==> forall i :: 0 <= i < |kwargs| ==> !Contributes(kwargs[i])
  {
    if kwargs != [] {
      var init := kwargs[..|kwargs| - 1];
      ClausesEmptyIff(init);
      assert forall i :: 0 <= i < |init| ==> init[i] == kwargs[i];
    }
  }

  /** Every clause names a column with a placeholder; the raw password never
      becomes a column, and rewrites to `password_hash`. */
  lemma {:induction false} ClausesAreColumns(kwargs: Kwargs)
    ensures forall c :: c in Clauses(kwargs) ==> c in {"name = %s", "email = %s", "password_hash = %s"}
  {
    if kwargs != [] {
      var init := kwargs[..|kwargs| - 1];
      var last := kwargs[|kwargs| - 1];
      ClausesAreColumns(init);
      if Contributes(last) {
        ClauseOfAllowed(last.0);
        assert Clauses(kwargs) == Clauses(init) + [ClauseOf(last.0)];
      } else {
        assert Clauses(kwargs) == Clauses(init);
      }
    }
  }

  lemma ClauseOfAllowed(key: string)
    requires key in AllowedFields
    ensures ClauseOf(key) in {"name = %s", "email = %s", "password_hash = %s"}
  {
    if key == "name" {
      assert ClauseOf("name") == "name = %s";
    } else if key == "email" {
      assert ClauseOf("email") == "email = %s";
    }
  }

  /** The m-th clause and the m-th value come from the same keyword
      argument: a password binds its hash, a name or email its value as given. */
  lemma {:induction false} ClausesPairWithValues(kwargs: Kwargs, hash: string -> string, m: nat)
    requires m < |Clauses(kwargs)|
    ensures |Values(kwargs, hash)| == |Clauses(kwargs)|
    ensures exists i :: (0 <= i < |kwargs| && Contributes(kwargs[i])
      && Clauses(kwargs)[m] == ClauseOf(kwargs[i].0)
      && Values(kwargs, hash)[m] == ValueOf(kwargs[i].0, kwargs[i].1.value, hash))
  {
    var init := kwargs[..|kwargs| - 1];
    ClausesValuesLength(init, hash);
    if m < |Clauses(init)| {
      ClausesPairWithValues(init, hash, m);
      var i :| 0 <= i < |init| && Contributes(init[i])
        && Clauses(init)[m] == ClauseOf(init[i].0)
        && Values(init, hash)[m] == ValueOf(init[i].0, init[i].1.value, hash);
      assert kwargs[i] == init[i];
    } else {
      var i := |kwargs| - 1;
      assert Contributes(kwargs[i]);
    }
  }

  lemma {:induction false} ClausesValuesLength(kwargs: Kwargs, hash: string -> string)
    ensures |Values(kwargs, hash)| == |Clauses(kwargs)|
  {
    if kwargs != [] {
      ClausesValuesLength(kwargs[..|kwargs| - 1], hash);
    }
  }

  /** Arguments appended after others add their clauses after the others':
      the clause order follows the keyword order. */
  lemma {:induction false} ClausesConcat(a: Kwargs, b: Kwargs)
    ensures Clauses(a + b) == Clauses(a) + Clauses(b)
    decreases |b|
  {
    if b == [] {
      assert a + b == a;
    } else {
      assert (a + b)[..|a + b| - 1] == a + b[..|b| - 1];
      ClausesConcat(a, b[..|b| - 1]);
    }
  }

  /** Keyword names are distinct, so at most three fields are set. */
  lemma AtMostThreeClauses(kwargs: Kwargs)
    requires forall i, j :: 0 <= i < j < |kwargs| ==> kwargs[i].0 != kwargs[j].0
    ensures |Clauses(kwargs)| <= 3
  {
    var keys := ContributingKeys(kwargs);
    assert keys <= AllowedFields;
    CardinalitySubset(keys, AllowedFields);
  }

  /** The set of keys that contributed; as many as there are clauses when keys are distinct. */
  lemma {:induction false} ContributingKeys(kwargs: Kwargs) returns (keys: set<string>)
    requires forall i, j :: 0 <= i < j < |kwargs| ==> kwargs[i].0 != kwargs[j].0
    ensures keys <= AllowedFields && |keys| == |Clauses(kwargs)|
    ensures forall k :: k in keys ==> exists i :: 0 <= i < |kwargs| && kwargs[i].0 == k
  {
    if kwargs == [] {
      keys := {};
    } else {
      var init := kwargs[..|kwargs| - 1];
      var last := kwargs[|kwargs| - 1];
      var earlier := ContributingKeys(init);
      forall k | k in earlier ensures exists i :: 0 <= i < |kwargs| && kwargs[i].0 == k {
        var i :| 0 <= i < |init| && init[i].0 == k;
        assert kwargs[i].0 == k;
      }
      if Contributes(last) {
        keys := earlier + {last.0};
      } else {
        keys := earlier;
      }
    }
  }

  lemma CardinalitySubset(a: set<string>, b: set<string>)
    requires a <= b
    ensures |a| <= |b|
  {
    assert b == a + (b - a);
  }

  /** The number of `%s` placeholders in a query text. */
  function Placeholders(s: string): nat {
    if |s| < 2 then 0 else (if s[0] == '%' && s[1] == 's' then 1 else 0) + Placeholders(s[1..])
  }

  predicate NoTrailingPercent(s: string) {
    s == [] || s[|s| - 1] != '%'
  }

  /** No placeholder can straddle a boundary that is not preceded by '%'. */
  lemma {:induction false} PlaceholdersConcat(a: string, b: string)
    requires NoTrailingPercent(a)
    ensures Placeholders(a + b) == Placeholders(a) + Placeholders(b)
  {
    if a == [] {
      assert a + b == b;
    } else if |a| == 1 {
      assert (a + b)[1..] == b;
    } else {
      assert (a + b)[1..] == a[1..] + b;
      assert (a + b)[0] == a[0] && (a + b)[1] == a[1];
      PlaceholdersConcat(a[1..], b);
    }
  }

  function SumPlaceholders(xs: seq<string>): nat {
    if xs == [] then 0 else Placeholders(xs[0]) + SumPlaceholders(xs[1..])
  }

  /** `", ".join` adds no placeholder of its own. */
  lemma {:induction false} JoinPlaceholders(xs: seq<string>)
    requires forall k :: 0 <= k < |xs| ==> NoTrailingPercent(xs[k])
    ensures Placeholders(Join(", ", xs)) == SumPlaceholders(xs)
  {
    if |xs| == 1 {
    } else if |xs| > 1 {
      var rest := Join(", ", xs[1..]);
      assert Join(", ", xs) == (xs[0] + ", ") + rest;
      PlaceholdersConcat(xs[0], ", ");
      PlaceholdersConcat(xs[0] + ", ", rest);
      JoinPlaceholders(xs[1..]);
    }
  }

  lemma {:induction false} SumPlaceholdersAppend(xs: seq<string>, x: string)
    ensures SumPlaceholders(xs + [x]) == SumPlaceholders(xs) + Placeholders(x)
  {
    if xs != [] {
      assert (xs + [x])[1..] == xs[1..] + [x];
      SumPlaceholdersAppend(xs[1..], x);
    }
  }

  /** A text without '%' holds no placeholder. */
  lemma {:induction false} NoPercentNoPlaceholders(s: string)
    requires '%' !in s
    ensures Placeholders(s) == 0
  {
    if |s| >= 2 {
      NoPercentNoPlaceholders(s[1..]);
    }
  }

  /** A column name followed by ` = %s` holds one placeholder. */
  lemma ClausePlaceholder(column: string)
    requires '%' !in column
    ensures Placeholders(column + " = %s") == 1
    ensures NoTrailingPercent(column + " = %s")
  {
    var lhs := column + " = ";
    assert '%' !in lhs;
    NoPercentNoPlaceholders(lhs);
    assert column + " = %s" == lhs + "%s";
    assert Placeholders("%s") == 1;
    PlaceholdersConcat(lhs, "%s");
  }

  /** Every field clause carries exactly one placeholder. */
  lemma {:induction false} ClausesPlaceholders(kwargs: Kwargs)
    ensures SumPlaceholders(Clauses(kwargs)) == |Clauses(kwargs)|
    ensures forall k :: 0 <= k < |Clauses(kwargs)| ==> NoTrailingPercent(Clauses(kwargs)[k])
  {
    if kwargs != [] {
      var init := kwargs[..|kwargs| - 1];
      var last := kwargs[|kwargs| - 1];
      ClausesPlaceholders(init);
      if Contributes(last) {
        var c := ClauseOf(last.0);
        if last.0 == "password" {
          ClausePlaceholder("password_hash");
          assert c == "password_hash" + " = %s";
        } else {
          assert '%' !in last.0;
          ClausePlaceholder(last.0);
        }
        assert Clauses(kwargs) == Clauses(init) + [c];
        SumPlaceholdersAppend(Clauses(init), c);
      } else {
        assert Clauses(kwargs) == Clauses(init);
      }
    }
  }

  /** The query text `update_user` sends. */
  function Query(updates: seq<string>): string {
    QueryHead + Join(", ", updates) + QueryTail
  }

  /** The indentation of the triple-quoted query inside `update_user`. */
  const Indent: string := "                "
  const ClosingIndent: string := "            "
  const QueryHead: string := "\n" + Indent + "UPDATE users \n" + Indent + "SET "
  const WhereClause: string := "\n" + Indent + "WHERE id = "
  const ReturningClause: string := "\n" + Indent + "RETURNING id, email, name, updated_at\n" + ClosingIndent
  const QueryTail: string := WhereClause + "%s" + ReturningClause

  lemma QueryTailPlaceholders()
    ensures Placeholders(QueryTail) == 1
  {
    assert '%' !in WhereClause;
    assert '%' !in ReturningClause;
    NoPercentNoPlaceholders(WhereClause);
    NoPercentNoPlaceholders(ReturningClause);
    assert Placeholders("%s") == 1;
    PlaceholdersConcat(WhereClause, "%s");
    PlaceholdersConcat(WhereClause + "%s", ReturningClause);
  }

  lemma UpdatedAtNoPlaceholder()
    ensures Placeholders(UpdatedAtClause) == 0
    ensures UpdatedAtClause != [] && NoTrailingPercent(UpdatedAtClause)
  {
    assert '%' !in UpdatedAtClause;
    NoPercentNoPlaceholders(UpdatedAtClause);
  }

  /** The query around a SET list holds the list's placeholders plus one. */
  lemma QueryAround(updates: seq<string>, n: nat)
    requires NoTrailingPercent(Join(", ", updates)) && Placeholders(Join(", ", updates)) == n
    ensures Placeholders(Query(updates)) == n + 1
  {
    var body := Join(", ", updates);
    assert '%' !in QueryHead;
    NoPercentNoPlaceholders(QueryHead);
    QueryTailPlaceholders();
    PlaceholdersConcat(QueryHead, body);
    PlaceholdersConcat(QueryHead + body, QueryTail);
  }

  /** With the `updated_at` clause appended, the SET list holds one
      placeholder per field clause and no `%` at its end. */
  lemma SetListWithUpdatedAt(fieldClauses: seq<string>)
    requires SumPlaceholders(fieldClauses) == |fieldClauses|
    requires forall k :: 0 <= k < |fieldClauses| ==> NoTrailingPercent(fieldClauses[k])
    ensures Placeholders(Join(", ", fieldClauses + [UpdatedAtClause])) == |fieldClauses|
    ensures NoTrailingPercent(Join(", ", fieldClauses + [UpdatedAtClause]))
  {
    UpdatedAtNoPlaceholder();
    SetListPlaceholders(fieldClauses, UpdatedAtClause);
  }

  lemma SetListPlaceholders(fieldClauses: seq<string>, last: string)
    requires SumPlaceholders(fieldClauses) == |fieldClauses|
    requires forall k :: 0 <= k < |fieldClauses| ==> NoTrailingPercent(fieldClauses[k])
    requires last != [] && NoTrailingPercent(last) && Placeholders(last) == 0
    ensures Placeholders(Join(", ", fieldClauses + [last])) == |fieldClauses|
    ensures NoTrailingPercent(Join(", ", fieldClauses + [last]))
  {
    var all := fieldClauses + [last];
    SumPlaceholdersAppend(fieldClauses, last);
    forall k | 0 <= k < |all| ensures NoTrailingPercent(all[k]) {
      if k < |fieldClauses| {
        assert all[k] == fieldClauses[k];
      }
    }
    JoinPlaceholders(all);
    assert all[|all| - 1] == last;
    JoinEndsWithLast(all);
  }

  /** A joined list ends the way its last element ends. */
  lemma {:induction false} JoinEndsWithLast(xs: seq<string>)
    requires xs != [] && xs[|xs| - 1] != [] && NoTrailingPercent(xs[|xs| - 1])
    ensures Join(", ", xs) != [] && NoTrailingPercent(Join(", ", xs))
  {
    if |xs| > 1 {
      var rest := xs[1..];
      assert rest[|rest| - 1] == xs[|xs| - 1];
      JoinEndsWithLast(rest);
      var j := Join(", ", rest);
      assert Join(", ", xs) == (xs[0] + ", ") + j;
      assert (xs[0] + ", " + j)[|xs[0] + ", " + j| - 1] == j[|j| - 1];
    }
  }

  /** `email.lower().strip()`: the key under which `create_user` stores an
      address and `find_by_email` looks it up. A key is already lower-cased
      and starts and ends with a non-whitespace character. */
  function EmailKey(email: string): (r: string)
    ensures Lower(r) == r
    ensures r != [] ==> r[0] !in Whitespace && r[|r| - 1] !in Whitespace
  {
    var x := Lower(email);
    StripKeepsLower(x, Whitespace);
    StripCharsEnds(x, Whitespace);
    Strip(x)
  }

  /** A text `lower` leaves alone is left alone by it as a whole. */
  lemma LowerFixesLower(s: string)
    requires forall k :: 0 <= k < |s| ==> LowerChar(s[k]) == s[k]
    ensures Lower(s) == s
  {
  }

  /** Whatever `strip(chars)` keeps of a lower-cased text is lower-cased. */
  lemma StripKeepsLower(x: string, cs: set<char>)
    requires forall k :: 0 <= k < |x| ==> LowerChar(x[k]) == x[k]
    ensures Lower(StripChars(x, cs)) == StripChars(x, cs)
  {
    var t := TrimStart(x, cs);
    var r := TrimEnd(t, cs);
    TrimStartShape(x, cs);
    TrimEndShape(t, cs);
    assert forall k :: 0 <= k < |r| ==> r[k] == x[|x| - |t| + k];
    LowerFixesLower(r);
  }

  /** Normalising a key again changes nothing. */
  lemma EmailKeyIdempotent(email: string)
    ensures EmailKey(EmailKey(email)) == EmailKey(email)
  {
    StripCharsIdempotent(Lower(email), Whitespace);
  }

  /** No whitespace character is an upper-case ASCII letter. */
  lemma WhitespaceLowerFixed(s: string)
    requires AllIn(s, Whitespace)
    ensures Lower(s) == s
  {
    forall k | 0 <= k < |s| ensures LowerChar(s[k]) == s[k] {
      assert s[k] in Whitespace;
    }
    LowerFixesLower(s);
  }

  /** Addresses differing only in ASCII case and surrounding whitespace share
      one key, so registering and looking up find the same row. */
  lemma EmailKeyVariants(email: string, variant: string, pre: string, post: string)
    requires Lower(variant) == Lower(email)
    requires AllIn(pre, Whitespace) && AllIn(post, Whitespace)
    ensures EmailKey(pre + variant + post) == EmailKey(email)
  {
    LowerConcat(pre + variant, post);
    LowerConcat(pre, variant);
    WhitespaceLowerFixed(pre);
    WhitespaceLowerFixed(post);
    assert Lower(pre + variant + post) == pre + Lower(email) + post;
    StripCharsPadding(pre, Lower(email), post, Whitespace);
  }
}
