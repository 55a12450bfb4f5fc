/**
 * What the three remote syncs share: the JSON scalars a remote row carries,
 * Python's conversions on them, the page a `limit_start`/`limit_page_length`
 * request returns, and the bounded retry loop of the two manual syncs.
 *
 * The remote is one list of rows in a stable order; page p (from 1) holds
 * the rows from offset (p - 1) * size. A fetch either succeeds or fails; how
 * often page p fails before succeeding is the parameter `failures(p)`.
 */
module Remote {
  import opened Wrappers
  import opened Text

  /** `FRAPPE_MAX_RETRIES` of the manual syncs. */
  const MaxRetries: nat := 3

  /** A JSON scalar as a remote row holds it. */
  datatype Value = Null | Bool(b: bool) | Int(i: int) | Str(s: string)

  /** Python truthiness. */
  predicate Truthy(v: Value)
  {
    match v
    case Null => false
    case Bool(b) => b
    case Int(i) => i != 0
    case Str(s) => s != []
  }

  /** Python's `str(v)`. */
  function StrOf(v: Value): string
  {
    match v
    case Null => "None"
    case Bool(b) => if b then "True" else "False"
    case Int(i) => IntToString(i)
    case Str(s) => s
  }

  /** Python's `int(v or 0)`: a non-numeral string raises `ValueError`. */
  function IntOrZero(v: Value): (r: Result<int>)
    ensures !Truthy(v) ==> r == Ok(0)
    ensures v.Int? ==> r == Ok(v.i)
    ensures r.Err? <==> Truthy(v) && v.Str? && ParseInt(v.s).None?
    ensures r.Err? ==> r.error == IntError(v.s)
  {
    if !Truthy(v) then Ok(0)
    else
      match v
      case Null => Ok(0)
      case Bool(b) => Ok(1)
      case Int(i) => Ok(i)
      case Str(s) => if ParseInt(s).Some? then Ok(ParseInt(s).value) else Err(IntError(s))
  }

  /** A number sent as its decimal text reads back as that number. */
  lemma IntOrZeroOfText(n: int)
    ensures IntOrZero(Str(IntToString(n))) == Ok(n)
  {
    ParseIntRoundTrip(n);
  }

  /** The words `_to_bool` accepts as true once no integer can be read. */
  const TrueWords: set<string> := {"true", "yes", "y", "1"}

  /**
   * `_to_bool` of the codes sync: None is false, a bool is itself, anything
   * `int()` accepts is true when nonzero, and any other value is true when its
   * stripped, lower-cased text is one of `TrueWords`.
   */
  function ToBool(v: Value): bool
  {
    match v
    case Null => false
    case Bool(b) => b
    case Int(i) => i != 0
    case Str(s) =>
      match ParseInt(s)
      case Some(n) => n != 0
      case None => Lower(Strip(s)) in TrueWords
  }

  /** A value and its text convert to the same flag (the remote may send `1`, `"1"`, `true` or `"True"`). */
  lemma ToBoolOfText(v: Value)
    ensures ToBool(Str(StrOf(v))) == ToBool(v)
  {
    match v
    case Null => NoneToBool();
    case Bool(b) => if b { TrueToBool(); } else { FalseToBool(); }
    case Int(i) => IntToBoolOfText(i);
    case Str(s) =>
  }

  /** `str(None)` is no true word. */
  lemma NoneToBool()
    ensures !ToBool(Str("None"))
  {
    WordToBool("None", "none");
    assert "none" !in TrueWords by { assert "none"[0] != "true"[0] && "none"[0] != "yes"[0] && |"none"| > 1; }
  }

  /** `str(True)` is a true word. */
  lemma TrueToBool()
    ensures ToBool(Str("True"))
  {
    WordToBool("True", "true");
  }

  /** `str(False)` is no true word. */
  lemma FalseToBool()
    ensures !ToBool(Str("False"))
  {
    WordToBool("False", "false");
    assert "false" !in TrueWords by { assert "false"[0] != "true"[0] && "false"[0] != "yes"[0] && |"false"| > 1; }
  }

  /** The decimal text of a number is read back by `int()` before any word is tried. */
  lemma IntToBoolOfText(i: int)
    ensures ToBool(Str(IntToString(i))) == (i != 0)
  {
    ParseIntRoundTrip(i);
  }

  /** A capitalised word is no numeral, and `_to_bool` compares its lower-case form. */
  lemma WordToBool(w: string, lower: string)
    requires |w| >= 2 && 'A' <= w[0] <= 'Z' && 'a' <= w[|w| - 1] <= 'z'
    requires Lower(w) == lower
    ensures ToBool(Str(w)) == (lower in TrueWords)
  {
    assert !IsSpace(w[0]) && !IsSpace(w[|w| - 1]);
    assert !AllDigits(w) by { assert !IsDigit(w[0]); }
    assert ParseInt(w) == ParseNumeral(w) == None;
    StripKeeps(w);
  }

  /**
   * The selection normalisers: a falsy value is absent (`False`); otherwise
   * the stripped, lower-cased text is kept when it is one of `allowed`.
   */
  function Choice(v: Value, allowed: set<string>): (r: Option<string>)
    ensures r.Some? ==> r.value in allowed && Truthy(v) && r.value == Lower(Strip(StrOf(v)))
    ensures r.None? ==> !Truthy(v) || Lower(Strip(StrOf(v))) !in allowed
  {
    if !Truthy(v) then None
    else
      var t := Lower(Strip(StrOf(v)));
      if t in allowed then Some(t) else None
  }

  /** A word in lower case without surrounding whitespace chooses itself. */
  lemma ChoiceOfWord(w: string, allowed: set<string>)
    requires w in allowed && w != []
    requires forall i | 0 <= i < |w| :: 'a' <= w[i] <= 'z'
    ensures Choice(Str(w), allowed) == Some(w)
  {
    assert !IsSpace(w[0]) && !IsSpace(w[|w| - 1]);
    StripKeeps(w);
    assert Lower(w) == w;
  }

  /** `_normalize_frappe_datetime`: absent when falsy, else the stripped text cut to 19 characters. */
  function NormalizeDatetime(v: Value): (r: Option<string>)
    ensures r.None? <==> !Truthy(v)
    ensures r.Some? ==> |r.value| <= 19 && |r.value| <= |Strip(StrOf(v))| && r.value == Strip(StrOf(v))[..|r.value|]
    ensures r.Some? && |Strip(StrOf(v))| <= 19 ==> r.value == Strip(StrOf(v))
  {
    if !Truthy(v) then None else Some(Prefix(Strip(StrOf(v)), 19))
  }

  // ---------------------------------------------------------------
  // Pages and fetches
  // ---------------------------------------------------------------

  /** The rows a request with `limit_start = (page - 1) * size` and `limit_page_length = size` returns. */
  function Page<T>(rows: seq<T>, page: nat, size: nat): (r: seq<T>)
    requires page >= 1 && size > 0
    ensures |r| <= size
    ensures r == [] <==> (page - 1) * size >= |rows|
    ensures forall j | 0 <= j < |r| :: (page - 1) * size + j < |rows| && r[j] == rows[(page - 1) * size + j]
    ensures (page - 1) * size + size <= |rows| ==> |r| == size
  {
    var offset := (page - 1) * size;
    if offset >= |rows| then []
    else
      var end := if offset + size <= |rows| then offset + size else |rows|;
      rows[offset..end]
  }

  /** Every row lies on the page its index belongs to. */
  lemma PageOfIndex<T>(rows: seq<T>, k: nat, size: nat)
    requires k < |rows| && size > 0
    ensures k / size + 1 >= 1
    ensures (k / size) * size <= k < (k / size) * size + size
    ensures k % size < |Page(rows, k / size + 1, size)|
    ensures Page(rows, k / size + 1, size)[k % size] == rows[k]
  {
    var p := k / size;
    assert k == p * size + k % size;
    assert (p + 1 - 1) * size == p * size;
  }

  /** The row at index k, on the page that holds it. */
  lemma PageEntry<T>(rows: seq<T>, page: nat, size: nat, k: int)
    requires page >= 1 && size > 0
    requires (page - 1) * size <= k < (page - 1) * size + |Page(rows, page, size)|
    ensures k < |rows| && Page(rows, page, size)[k - (page - 1) * size] == rows[k]
  {
  }

  /** Lists of the same length have pages of the same length. */
  lemma PageSameLength<T, U>(a: seq<T>, b: seq<U>, page: nat, size: nat)
    requires page >= 1 && size > 0 && |a| == |b|
    ensures |Page(a, page, size)| == |Page(b, page, size)|
  {
  }

  // ---------------------------------------------------------------
  // Collecting a page
  // ---------------------------------------------------------------

  /**
   * The rows one page of the codes or the log sync collects before it
   * writes: the conversion of every row the page does not skip, in order.
   * `skips[j]` says whether row j is skipped, `cs[j]` is its conversion;
   * the first row not skipped whose conversion raises aborts the page.
   */
  function Collect<T>(skips: seq<bool>, cs: seq<Result<T>>): (r: Result<seq<T>>)
    requires |cs| == |skips|
    ensures r.Ok? ==> |r.value| <= |skips|
  {
    if skips == [] then Ok([])
    else
      var n := |skips| - 1;
      match Collect(skips[..n], cs[..n])
      case Err(e) => Err(e)
      case Ok(rows) =>
        if skips[n] then Ok(rows)
        else
          match cs[n]
          case Err(e) => Err(e)
          case Ok(row) => Ok(rows + [row])
  }

  /** A page raises exactly when one of the rows it does not skip fails to convert. */
  lemma {:induction false} CollectError<T>(skips: seq<bool>, cs: seq<Result<T>>)
    requires |cs| == |skips|
    ensures Collect(skips, cs).Err? <==> exists j | 0 <= j < |skips| :: !skips[j] && cs[j].Err?
  {
    if skips != [] {
      var n := |skips| - 1;
      assert forall j | 0 <= j < n :: skips[..n][j] == skips[j] && cs[..n][j] == cs[j];
      CollectError(skips[..n], cs[..n]);
    }
  }

  /**
   * A page that does not raise takes the conversion of every row it does
   * not skip, and nothing else.
   */
  lemma {:induction false} CollectRows<T>(skips: seq<bool>, cs: seq<Result<T>>)
    requires |cs| == |skips| && Collect(skips, cs).Ok?
    ensures forall j | 0 <= j < |skips| && !skips[j] :: cs[j].Ok? && cs[j].value in Collect(skips, cs).value
    ensures forall row | row in Collect(skips, cs).value :: exists j | 0 <= j < |skips| :: !skips[j] && cs[j] == Ok(row)
  {
    if skips != [] {
      var n := |skips| - 1;
      assert forall j | 0 <= j < n :: skips[..n][j] == skips[j] && cs[..n][j] == cs[j];
      CollectRows(skips[..n], cs[..n]);
    }
  }

  /** A page whose rows are all skipped collects nothing. */
  lemma {:induction false} CollectAllSkipped<T>(skips: seq<bool>, cs: seq<Result<T>>)
    requires |cs| == |skips|
    requires forall j | 0 <= j < |skips| :: skips[j]
    ensures Collect(skips, cs) == Ok([])
  {
    if skips != [] {
      var n := |skips| - 1;
      assert forall j | 0 <= j < n :: skips[..n][j] == skips[j];
      CollectAllSkipped(skips[..n], cs[..n]);
    }
  }

  /** Once the first i rows of a page raise, the whole page raises the same error. */
  lemma {:induction false} CollectErrorStays<T>(skips: seq<bool>, cs: seq<Result<T>>, i: nat)
    requires |cs| == |skips| && i <= |skips| && Collect(skips[..i], cs[..i]).Err?
    ensures Collect(skips, cs) == Collect(skips[..i], cs[..i])
    decreases |skips| - i
  {
    if i < |skips| {
      assert skips[..i + 1][..i] == skips[..i] && cs[..i + 1][..i] == cs[..i];
      CollectErrorStays(skips, cs, i + 1);
    } else {
      assert skips[..i] == skips && cs[..i] == cs;
    }
  }

  /** How often the fetch of a page fails before it succeeds; pages not listed never fail. */
  function Failures(failures: map<nat, nat>, page: nat): nat
  {
    if page in failures then failures[page] else 0
  }

  /** Why a manual sync ended. */
  datatype SyncEnd =
    | Finished        // a page came back empty
    | Paused          // the runtime cap was reached before the next page
    | FetchFailed     // the last of `MaxRetries` attempts failed and was re-raised
    | Raised(error: string)

  /**
   * The retry loop of the two manual syncs: attempt a (from 1) of page p
   * fails while a <= failures(p); the failure of attempt `MaxRetries` is
   * re-raised.
   */
  method FetchPage<T>(rows: seq<T>, page: nat, size: nat, failures: nat -> nat) returns (r: Option<seq<T>>)
    requires page >= 1 && size > 0
    ensures r.None? <==> failures(page) >= MaxRetries
    ensures r.Some? ==> r.value == Page(rows, page, size)
  {
    var attempt: nat := 0;
    while true
      invariant attempt < MaxRetries && attempt <= failures(page)
      decreases MaxRetries - attempt
    {
      attempt := attempt + 1;
      if attempt > failures(page) {
        return Some(Page(rows, page, size));
      }
      if attempt >= MaxRetries {
        return None;
      }
    }
  }
}
