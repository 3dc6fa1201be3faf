/**
 * Configuration read once at start-up: the allow-list of statuses and the shared
 * token. The environment is passed in as the values of `ALLOWED_STATUSES` and
 * `AUTH_TOKEN`, `None` when a variable is unset.
 */
module Config {
  import opened Wrappers
  import opened Chars
  import opened Text

  /** The allow-list used when `ALLOWED_STATUSES` is unset. */
  const DefaultStatuses := "Tilgjengelig,Møte,Ute på oppdrag"

  datatype Config = Config(allowed: seq<string>, token: string)

  /** What an allow-list entry looks like: non-empty, no whitespace at either end, no comma. */
  predicate IsEntry(e: string) {
    e != "" && IsStripped(e) && ',' !in e
  }

  /** Each piece stripped, in place. */
  function StripEach(pieces: seq<string>): (r: seq<string>)
    ensures |r| == |pieces| && forall k :: 0 <= k < |pieces| ==> r[k] == Strip(pieces[k])
  {
    seq(|pieces|, k requires 0 <= k < |pieces| => Strip(pieces[k]))
  }

  /** The non-empty strings of `xs`, in order. */
  function NonEmpty(xs: seq<string>): (r: seq<string>)
    ensures |r| <= |xs|
  {
    if xs == [] then []
    else (if xs[0] != "" then [xs[0]] else []) + NonEmpty(xs[1..])
  }

  /** The filter lets through only non-empty strings of its input. */
  lemma {:induction false} NonEmptyKeeps(xs: seq<string>)
    ensures forall e :: e in NonEmpty(xs) ==> e in xs && e != ""
  {
    if xs != [] {
      NonEmptyKeeps(xs[1..]);
    }
  }

  /** `[p.strip() for p in pieces if p.strip()]`. */
  function StrippedNonEmpty(pieces: seq<string>): (entries: seq<string>)
    ensures |entries| <= |pieces|
    ensures forall e :: e in entries ==> e != "" && IsStripped(e)
  {
    NonEmptyKeeps(StripEach(pieces));
    NonEmpty(StripEach(pieces))
  }

  /** The positions in `xs` of the strings `NonEmpty` keeps, in order. */
  function KeptPositions(xs: seq<string>): seq<nat> {
    if xs == [] then []
    else (if xs[0] != "" then [0] else []) + Shifted(KeptPositions(xs[1..]))
  }

  /** Every position moved one place to the right. */
  function Shifted(ix: seq<nat>): seq<nat> {
    seq(|ix|, k requires 0 <= k < |ix| => ix[k] + 1)
  }

  /** Entry k of the filter is the string at the k-th kept position. */
  predicate EntriesAtPositions(xs: seq<string>) {
    && |KeptPositions(xs)| == |NonEmpty(xs)|
    && forall k :: 0 <= k < |KeptPositions(xs)| ==>
      KeptPositions(xs)[k] < |xs| && NonEmpty(xs)[k] == xs[KeptPositions(xs)[k]]
  }

  lemma EntriesAtPositionsKept(xs: seq<string>)
    requires xs != [] && xs[0] != "" && EntriesAtPositions(xs[1..])
    ensures EntriesAtPositions(xs)
  {
    var tail := xs[1..];
    var ix, tix := KeptPositions(xs), KeptPositions(tail);
    var r, tr := NonEmpty(xs), NonEmpty(tail);
    var sh := Shifted(tix);
    assert ix == [0] + sh && r == [xs[0]] + tr;
    assert |sh| == |tix|;
    forall k | 1 <= k < |ix| ensures ix[k] < |xs| && r[k] == xs[ix[k]] {
      assert ix[k] == sh[k - 1] == tix[k - 1] + 1;
      assert r[k] == tr[k - 1];
      assert xs[ix[k]] == tail[tix[k - 1]];
    }
  }

  lemma EntriesAtPositionsDropped(xs: seq<string>)
    requires xs != [] && xs[0] == "" && EntriesAtPositions(xs[1..])
    ensures EntriesAtPositions(xs)
  {
    var tail := xs[1..];
    var ix, tix := KeptPositions(xs), KeptPositions(tail);
    var r, tr := NonEmpty(xs), NonEmpty(tail);
    var sh := Shifted(tix);
    assert ix == [] + sh == sh;
    assert r == [] + tr == tr;
    assert |sh| == |tix|;
    forall k | 0 <= k < |ix| ensures ix[k] < |xs| && r[k] == xs[ix[k]] {
      assert ix[k] == sh[k] == tix[k] + 1;
      assert r[k] == tr[k];
      assert xs[ix[k]] == tail[tix[k]];
    }
  }

  lemma {:induction false} KeptPositionsEntries(xs: seq<string>)
    ensures EntriesAtPositions(xs)
  {
    if xs != [] {
      KeptPositionsEntries(xs[1..]);
      if xs[0] != "" {
        EntriesAtPositionsKept(xs);
      } else {
        EntriesAtPositionsDropped(xs);
      }
    }
  }

  lemma {:induction false} KeptPositionsIncrease(xs: seq<string>)
    ensures forall k, l :: 0 <= k < l < |KeptPositions(xs)| ==> KeptPositions(xs)[k] < KeptPositions(xs)[l]
  {
    if xs != [] {
      KeptPositionsIncrease(xs[1..]);
    }
  }

  lemma {:induction false} KeptPositionsComplete(xs: seq<string>)
    ensures forall j :: 0 <= j < |xs| && xs[j] != "" ==> j in KeptPositions(xs)
  {
    if xs != [] {
      var tail := xs[1..];
      KeptPositionsComplete(tail);
      var ix, tix := KeptPositions(xs), KeptPositions(tail);
      var d := if xs[0] != "" then 1 else 0;
      forall j | 1 <= j < |xs| && xs[j] != "" ensures j in ix {
        assert xs[j] == tail[j - 1];
        var m :| 0 <= m < |tix| && tix[m] == j - 1;
        assert ix[m + d] == j;
      }
    }
  }

  /**
   * The comprehension keeps exactly the pieces whose stripped form is non-empty, strips
   * them, and keeps them in their original order: entry k is the stripped piece at
   * position KeptPositions(...)[k], those positions increase, and every piece with a
   * non-empty stripped form has its position among them.
   */
  lemma StrippedNonEmptyKeepsOrder(pieces: seq<string>)
    ensures var ix := KeptPositions(StripEach(pieces));
      && |ix| == |StrippedNonEmpty(pieces)|
      && (forall k :: 0 <= k < |ix| ==> ix[k] < |pieces| && StrippedNonEmpty(pieces)[k] == Strip(pieces[ix[k]]))
      && (forall k, l :: 0 <= k < l < |ix| ==> ix[k] < ix[l])
      && (forall j :: 0 <= j < |pieces| && Strip(pieces[j]) != "" ==> j in ix)
  {
    var xs := StripEach(pieces);
    KeptPositionsEntries(xs);
    KeptPositionsIncrease(xs);
    KeptPositionsComplete(xs);
  }

  /** `ALLOWED_STATUSES`: the variable split on commas, each piece stripped, empty pieces dropped. */
  function ParseAllowList(env: string): (allowed: seq<string>)
    ensures forall k :: 0 <= k < |allowed| ==> IsEntry(allowed[k])
  {
    var pieces := Split(env, ',');
    StrippedNonEmptyKeepsOrder(pieces);
    forall k | 0 <= k < |pieces| ensures ',' !in Strip(pieces[k]) {
      StripChars(pieces[k]);
    }
    StrippedNonEmpty(pieces)
  }

  lemma {:induction false} NonEmptyIsEmpty(xs: seq<string>)
    ensures NonEmpty(xs) == [] <==> forall k :: 0 <= k < |xs| ==> xs[k] == ""
  {
    if xs != [] {
      NonEmptyIsEmpty(xs[1..]);
      assert forall k :: 1 <= k < |xs| ==> xs[k] == xs[1..][k - 1];
    }
  }

  lemma BlankPiecesJoinBlank(pieces: seq<string>, sep: char)
    requires forall k :: 0 <= k < |pieces| ==> AllSpace(pieces[k])
    ensures forall c :: c in Join(pieces, sep) ==> c == sep || IsSpace(c)
  {
    JoinChars(pieces, sep);
  }

  lemma JoinBlankPiecesBlank(pieces: seq<string>, sep: char)
    requires forall k :: 0 <= k < |pieces| ==> sep !in pieces[k]
    requires forall c :: c in Join(pieces, sep) ==> c == sep || IsSpace(c)
    ensures forall k :: 0 <= k < |pieces| ==> AllSpace(pieces[k])
  {
    JoinChars(pieces, sep);
    forall k, i | 0 <= k < |pieces| && 0 <= i < |pieces[k]| ensures IsSpace(pieces[k][i]) {
      assert pieces[k][i] in pieces[k];
    }
  }

  /** Every piece of the comma split strips to nothing exactly when `env` holds only commas and whitespace. */
  lemma BlankPieces(env: string)
    ensures (forall k :: 0 <= k < |Split(env, ',')| ==> Strip(Split(env, ',')[k]) == "")
      <==> forall c :: c in env ==> c == ',' || IsSpace(c)
  {
    var pieces := Split(env, ',');
    forall k | 0 <= k < |pieces| ensures Strip(pieces[k]) == "" <==> AllSpace(pieces[k]) {
      StripEmpty(pieces[k]);
    }
    if forall k :: 0 <= k < |pieces| ==> AllSpace(pieces[k]) {
      BlankPiecesJoinBlank(pieces, ',');
    }
    if forall c :: c in env ==> c == ',' || IsSpace(c) {
      JoinBlankPiecesBlank(pieces, ',');
    }
  }

  /**
   * The allow-list is empty exactly when the variable holds nothing but commas and
   * whitespace; the service then has no default status.
   */
  lemma AllowListEmpty(env: string)
    ensures ParseAllowList(env) == [] <==> forall c :: c in env ==> c == ',' || IsSpace(c)
  {
    var pieces := Split(env, ',');
    var xs := StripEach(pieces);
    assert ParseAllowList(env) == NonEmpty(xs);
    NonEmptyIsEmpty(xs);
    BlankPieces(env);
    assert (forall k :: 0 <= k < |xs| ==> xs[k] == "") <==> (forall k :: 0 <= k < |pieces| ==> Strip(pieces[k]) == "");
  }

  /** Start-up configuration from the two environment variables (`None` when unset). */
  function LoadConfig(statusesEnv: Option<string>, tokenEnv: Option<string>): (c: Config)
    ensures forall k :: 0 <= k < |c.allowed| ==> IsEntry(c.allowed[k])
    ensures IsStripped(c.token)
  {
    Config(ParseAllowList(statusesEnv.GetOr(DefaultStatuses)), Strip(tokenEnv.GetOr("")))
  }
}
