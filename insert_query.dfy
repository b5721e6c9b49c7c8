/** The batch INSERT of `save_secrets` (src/secret.rs): the statement text with its numbered
    placeholders, the parameters bound to it, and what the database makes of the pair. */
module InsertQuery {
  import opened Text
  import opened Wrappers
  import opened Models

  /** The fixed head of the statement, `INSERT INTO secrets (secret_name, encrypted_secret_value,
      version) VALUES `, written in two parts. */
  const TABLE_PART: string := "INSERT INTO secrets (secret_name, "
  const VALUES_PART: string := "encrypted_secret_value, version) VALUES "
  const INSERT_PREFIX: string := TABLE_PART + VALUES_PART

  // ---- the statement text ----

  /** Placeholder k: `$k`. */
  function Placeholder(k: nat): string {
    "$" + Decimal(k)
  }

  /** The tuple of item i, `format!("(${}, ${}, ${})", i * 3 + 1, i * 3 + 2, i * 3 + 3)`. */
  function Group(i: nat): string {
    "(" + Placeholder(i * 3 + 1) + ", " + Placeholder(i * 3 + 2) + ", " + Placeholder(i * 3 + 3) + ")"
  }

  /** What goes before the tuple of item i: nothing for the first, `", "` otherwise. */
  function Separator(i: nat): string {
    if i > 0 then ", " else ""
  }

  /** The tuples of the first n items, separated by commas. */
  function ValuesList(n: nat): string {
    if n == 0 then "" else ValuesList(n - 1) + Separator(n - 1) + Group(n - 1)
  }

  /** The whole statement for n items. */
  function Statement(n: nat): string {
    INSERT_PREFIX + ValuesList(n)
  }

  lemma StatementStep(n: nat)
    ensures Statement(n + 1) == Statement(n) + Separator(n) + Group(n)
  {
    assert ValuesList(n + 1) == ValuesList(n) + Separator(n) + Group(n);
  }

  /** The two loops of `save_secrets`: the text grows by one tuple per item, then the
      parameters grow by name, ciphertext and version per item. */
  method BuildStatement(items: seq<SavedSecret>) returns (query: string, params: seq<Param>)
    ensures query == Statement(|items|)
    ensures params == Bindings(items)
  {
    query := INSERT_PREFIX;
    assert query == Statement(0);
    for i := 0 to |items|
      invariant query == Statement(i)
    {
      if i > 0 {
        query := query + ", ";
      }
      assert query == Statement(i) + Separator(i);
      query := query + Group(i);
      StatementStep(i);
    }
    params := [];
    for i := 0 to |items|
      invariant params == Bindings(items[..i])
    {
      assert items[..i + 1][..i] == items[..i];
      assert items[..i + 1][i] == items[i];
      params := params + [PText(items[i].secretName), PBytes(items[i].encryptedSecretValue), PInt(items[i].version)];
    }
    assert items[..|items|] == items;
  }

  // ---- reading the placeholders back ----

  /** The run of decimal digits at the front of s. */
  function Digits(s: string): (d: string)
    ensures AllDigits(d) && |d| <= |s|
  {
    if s == [] || !IsDigit(s[0]) then [] else [s[0]] + Digits(s[1..])
  }

  /** The run is all digits, is where it is said to be, and cannot be made longer. */
  lemma {:induction false} DigitsRun(s: string)
    ensures var d := Digits(s);
      d == s[..|d|] && (|d| < |s| ==> !IsDigit(s[|d|]))
  {
    if s != [] && IsDigit(s[0]) {
      DigitsRun(s[1..]);
    }
  }

  /** The numbers of the placeholders in s in the order they appear: each `$` followed by the
      longest run of digits after it. */
  function Refs(s: string): seq<nat>
    decreases |s|
  {
    if s == [] then []
    else if s[0] == '$' then
      var d := Digits(s[1..]);
      [ParseDecimal(d)] + Refs(s[1 + |d|..])
    else Refs(s[1..])
  }

  predicate StartsWithNonDigit(b: string) {
    b == [] || !IsDigit(b[0])
  }

  lemma {:induction false} DigitsAppend(a: string, b: string)
    requires StartsWithNonDigit(b)
    ensures Digits(a + b) == Digits(a)
    decreases |a|
  {
    if a != [] && IsDigit(a[0]) {
      assert (a + b)[1..] == a[1..] + b;
      DigitsAppend(a[1..], b);
    }
  }

  /** Placeholders do not run across a boundary where the second part starts with a non-digit. */
  lemma {:induction false} RefsAppend(a: string, b: string)
    requires StartsWithNonDigit(b)
    ensures Refs(a + b) == Refs(a) + Refs(b)
    decreases |a|
  {
    if a == [] {
      assert a + b == b;
    } else {
      var ab := a + b;
      assert ab[0] == a[0];
      assert ab[1..] == a[1..] + b;
      if a[0] == '$' {
        var d := Digits(a[1..]);
        DigitsAppend(a[1..], b);
        assert Digits(ab[1..]) == d;
        assert ab[1 + |d|..] == a[1 + |d|..] + b;
        RefsAppend(a[1 + |d|..], b);
        assert Refs(ab) == [ParseDecimal(d)] + Refs(ab[1 + |d|..]);
      } else {
        RefsAppend(a[1..], b);
        assert Refs(ab) == Refs(ab[1..]);
      }
    }
  }

  lemma {:induction false} RefsNone(s: string)
    requires forall i :: 0 <= i < |s| ==> s[i] != '$'
    ensures Refs(s) == []
    decreases |s|
  {
    if s != [] {
      RefsNone(s[1..]);
    }
  }

  lemma {:induction false} DigitsAll(d: string)
    requires AllDigits(d)
    ensures Digits(d) == d
    decreases |d|
  {
    if d != [] {
      DigitsAll(d[1..]);
      assert d == [d[0]] + d[1..];
    }
  }

  /** A `$` and the digits of k read back as the one placeholder k. */
  lemma RefsPlaceholder(k: nat)
    ensures Refs(Placeholder(k)) == [k]
  {
    var d := Decimal(k);
    var s := Placeholder(k);
    assert s[1..] == d;
    DigitsAll(d);
    assert s[1 + |d|..] == [];
    DecimalRoundTrip(k);
  }

  /** The tuple of item i holds exactly the placeholders 3i+1, 3i+2 and 3i+3, in that order. */
  lemma RefsGroup(i: nat)
    ensures Refs(Group(i)) == [i * 3 + 1, i * 3 + 2, i * 3 + 3]
  {
    var p1 := Placeholder(i * 3 + 1);
    var p2 := Placeholder(i * 3 + 2);
    var p3 := Placeholder(i * 3 + 3);
    RefsPlaceholder(i * 3 + 1);
    RefsPlaceholder(i * 3 + 2);
    RefsPlaceholder(i * 3 + 3);
    RefsNone("(");
    RefsNone(", ");
    RefsNone(")");
    RefsAppend("(", p1);
    RefsAppend("(" + p1, ", ");
    RefsAppend("(" + p1 + ", ", p2);
    RefsAppend("(" + p1 + ", " + p2, ", ");
    RefsAppend("(" + p1 + ", " + p2 + ", ", p3);
    RefsAppend("(" + p1 + ", " + p2 + ", " + p3, ")");
  }

  /** The numbers a, a+1, ..., b-1. */
  function Range(a: nat, b: nat): (r: seq<nat>)
    ensures |r| == if b <= a then 0 else b - a
    ensures forall k :: 0 <= k < |r| ==> r[k] == a + k
    decreases b
  {
    if b <= a then [] else Range(a, b - 1) + [b - 1]
  }

  lemma RangeStep(a: nat, b: nat)
    requires a <= b
    ensures Range(a, b + 3) == Range(a, b) + [b, b + 1, b + 2]
  {
    assert Range(a, b + 3) == Range(a, b + 2) + [b + 2];
    assert Range(a, b + 2) == Range(a, b + 1) + [b + 1];
    assert Range(a, b + 1) == Range(a, b) + [b];
  }

  lemma GroupOpens(i: nat)
    ensures Group(i) != [] && Group(i)[0] == '('
  {
  }

  lemma SeparatorHasNoRefs(i: nat)
    ensures StartsWithNonDigit(Separator(i)) && Refs(Separator(i)) == []
  {
    RefsNone(Separator(i));
  }

  lemma RefsAppend3(a: string, b: string, c: string)
    requires StartsWithNonDigit(b) && StartsWithNonDigit(c)
    ensures Refs(a + b + c) == Refs(a) + Refs(b) + Refs(c)
  {
    RefsAppend(a, b);
    RefsAppend(a + b, c);
  }

  lemma RefsValuesStep(v: string, sep: string, g: string, i: nat)
    requires Refs(v) == Range(1, 3 * i + 1) && Refs(sep) == [] && StartsWithNonDigit(sep)
    requires g != [] && g[0] == '(' && Refs(g) == [i * 3 + 1, i * 3 + 2, i * 3 + 3]
    ensures Refs(v + sep + g) == Range(1, 3 * i + 4)
  {
    RefsAppend3(v, sep, g);
    RangeStep(1, 3 * i + 1);
  }

  /** n items yield the placeholders $1 to $3n, each exactly once and in increasing order. */
  lemma {:induction false} RefsValuesList(n: nat)
    ensures Refs(ValuesList(n)) == Range(1, 3 * n + 1)
  {
    if n > 0 {
      RefsValuesList(n - 1);
      RefsValuesNext(n);
    }
  }

  /** One more tuple brings the next three placeholders. */
  lemma RefsValuesNext(n: nat)
    requires n >= 1
    requires Refs(ValuesList(n - 1)) == Range(1, 3 * (n - 1) + 1)
    ensures Refs(ValuesList(n)) == Range(1, 3 * n + 1)
  {
    var m := n - 1;
    var v, sep, g := ValuesList(m), Separator(m), Group(m);
    assert ValuesList(n) == v + sep + g;
    RefsGroup(m);
    GroupOpens(m);
    SeparatorHasNoRefs(m);
    RefsValuesStep(v, sep, g, m);
    assert 3 * m + 4 == 3 * n + 1;
  }

  predicate NoDollar(s: string) {
    forall i :: 0 <= i < |s| ==> s[i] != '$'
  }

  lemma TablePartHasNoDollar()
    ensures NoDollar(TABLE_PART)
  {
  }

  lemma ValuesPartHasNoDollar()
    ensures NoDollar(VALUES_PART)
  {
  }

  lemma NoDollarAppend(a: string, b: string)
    requires NoDollar(a) && NoDollar(b)
    ensures NoDollar(a + b)
  {
    forall i | 0 <= i < |a + b|
      ensures (a + b)[i] != '$'
    {
      if i >= |a| {
        assert (a + b)[i] == b[i - |a|];
      }
    }
  }

  lemma PrefixHasNoDollar()
    ensures NoDollar(INSERT_PREFIX)
  {
    TablePartHasNoDollar();
    ValuesPartHasNoDollar();
    NoDollarAppend(TABLE_PART, VALUES_PART);
  }

  lemma PrefixHasNoRefs()
    ensures Refs(INSERT_PREFIX) == []
  {
    PrefixHasNoDollar();
    RefsNone(INSERT_PREFIX);
  }

  /** The whole statement holds the placeholders $1 to $3n, each once, in increasing order. */
  lemma RefsStatement(n: nat)
    ensures Refs(Statement(n)) == Range(1, 3 * n + 1)
  {
    PrefixHasNoRefs();
    RefsValuesList(n);
    if n > 0 {
      FirstIsParen(n);
    }
    RefsAppend(INSERT_PREFIX, ValuesList(n));
  }

  lemma {:induction false} FirstIsParen(n: nat)
    requires n > 0
    ensures ValuesList(n) != [] && ValuesList(n)[0] == '('
  {
    if n == 1 {
      assert ValuesList(1) == Group(0);
    } else {
      FirstIsParen(n - 1);
    }
  }

  // ---- the parameters and what the database does with them ----

  /** A bound parameter: text, `BYTEA` or `INTEGER`. */
  datatype Param = PText(text: string) | PBytes(bytes: Bytes) | PInt(integer: I32)

  /** The parameters of the first items, three per item in input order. */
  function Bindings(items: seq<SavedSecret>): (ps: seq<Param>)
    ensures |ps| == 3 * |items|
  {
    if items == [] then []
    else
      var last := items[|items| - 1];
      Bindings(items[..|items| - 1]) + [PText(last.secretName), PBytes(last.encryptedSecretValue), PInt(last.version)]
  }

  /** Placeholder 3i+k carries the k-th field of item i. */
  lemma {:induction false} BindingsAt(items: seq<SavedSecret>, i: nat)
    requires i < |items|
    ensures var ps := Bindings(items);
      ps[3 * i] == PText(items[i].secretName)
      && ps[3 * i + 1] == PBytes(items[i].encryptedSecretValue)
      && ps[3 * i + 2] == PInt(items[i].version)
  {
    if i < |items| - 1 {
      BindingsAt(items[..|items| - 1], i);
    }
  }

  /** The row one tuple of placeholders inserts, or the failure of a parameter of the wrong
      type for its column. */
  function TupleRow(a: nat, b: nat, c: nat, params: seq<Param>): Result<SavedSecret, DbError>
    requires 1 <= a <= |params| && 1 <= b <= |params| && 1 <= c <= |params|
  {
    match (params[a - 1], params[b - 1], params[c - 1])
    case (PText(name), PBytes(value), PInt(version)) => Ok(SavedSecret(name, value, version))
    case _ => Err(BindMismatch)
  }

  /** Every placeholder names one of the `count` parameters. */
  predicate AllBound(refs: seq<nat>, count: nat) {
    forall k :: 0 <= k < |refs| ==> 1 <= refs[k] <= count
  }

  /** The rows of the first n tuples, three placeholders per tuple in text order; the first
      parameter of the wrong type fails the statement. */
  function TupleRows(refs: seq<nat>, params: seq<Param>, n: nat): Result<seq<SavedSecret>, DbError>
    requires 3 * n <= |refs|
    requires AllBound(refs, |params|)
  {
    if n == 0 then Ok([])
    else
      var k := 3 * (n - 1);
      match TupleRows(refs, params, n - 1)
      case Err(e) => Err(e)
      case Ok(rows) =>
        match TupleRow(refs[k], refs[k + 1], refs[k + 2], params)
        case Err(e) => Err(e)
        case Ok(row) => Ok(rows + [row])
  }

  /** Executing the INSERT: a `VALUES` without tuples is a syntax error; so is a tuple that
      is not three placeholders; a placeholder without a parameter, or a parameter of the wrong
      type, fails the binding. */
  function StatementRows(query: string, params: seq<Param>): Result<seq<SavedSecret>, DbError> {
    BoundRows(Refs(query), params)
  }

  /** The same, given the placeholders of the statement in text order. */
  function BoundRows(refs: seq<nat>, params: seq<Param>): Result<seq<SavedSecret>, DbError> {
    if refs == [] || |refs| % 3 != 0 then Err(SyntaxError)
    else if !AllBound(refs, |params|) then Err(BindMismatch)
    else TupleRows(refs, params, |refs| / 3)
  }

  lemma TupleRowAt(items: seq<SavedSecret>, i: nat)
    requires i < |items|
    ensures TupleRow(3 * i + 1, 3 * i + 2, 3 * i + 3, Bindings(items)) == Ok(items[i])
  {
    BindingsAt(items, i);
  }

  lemma TupleRowsStep(refs: seq<nat>, params: seq<Param>, n: nat, rows: seq<SavedSecret>, row: SavedSecret)
    requires 1 <= n && 3 * n <= |refs| && AllBound(refs, |params|)
    requires TupleRows(refs, params, n - 1) == Ok(rows)
    requires TupleRow(refs[3 * n - 3], refs[3 * n - 2], refs[3 * n - 1], params) == Ok(row)
    ensures TupleRows(refs, params, n) == Ok(rows + [row])
  {
  }

  lemma {:induction false} TupleRowsBound(items: seq<SavedSecret>, n: nat, refs: seq<nat>, params: seq<Param>)
    requires n <= |items| && |refs| == 3 * |items| && |params| == 3 * |items|
    requires forall k :: 0 <= k < |refs| ==> refs[k] == k + 1
    requires AllBound(refs, |params|)
    requires forall i :: 0 <= i < |items| ==> TupleRow(3 * i + 1, 3 * i + 2, 3 * i + 3, params) == Ok(items[i])
    ensures TupleRows(refs, params, n) == Ok(items[..n])
  {
    if n > 0 {
      var k := 3 * (n - 1);
      assert refs[k] == k + 1 && refs[k + 1] == k + 2 && refs[k + 2] == k + 3;
      TupleRowsBound(items, n - 1, refs, params);
      TupleRowsStep(refs, params, n, items[..n - 1], items[n - 1]);
      assert items[..n] == items[..n - 1] + [items[n - 1]];
    }
  }

  /** Placeholders $1 to $3n in order select the n items bound to them. */
  lemma RowsOfNumbered(refs: seq<nat>, items: seq<SavedSecret>)
    requires |refs| == 3 * |items|
    requires forall k :: 0 <= k < |refs| ==> refs[k] == k + 1
    ensures BoundRows(refs, Bindings(items)) == if items == [] then Err(SyntaxError) else Ok(items)
  {
    var n := |items|;
    var params := Bindings(items);
    if n > 0 {
      assert AllBound(refs, |params|);
      assert BoundRows(refs, params) == TupleRows(refs, params, n);
      forall i | 0 <= i < n
        ensures TupleRow(3 * i + 1, 3 * i + 2, 3 * i + 3, params) == Ok(items[i])
      {
        TupleRowAt(items, i);
      }
      TupleRowsBound(items, n, refs, params);
      assert items[..n] == items;
    }
  }

  /** The statement `save_secrets` builds inserts exactly its items, in input order, with
      every field where its column expects it; for an empty batch it is a syntax error. */
  lemma StatementInsertsItems(items: seq<SavedSecret>)
    ensures StatementRows(Statement(|items|), Bindings(items))
      == if items == [] then Err(SyntaxError) else Ok(items)
  {
    RefsStatement(|items|);
    RowsOfNumbered(Refs(Statement(|items|)), items);
  }
}
