/** The URL query string that saves a guess and its salt, the page chosen when the
    page is reloaded from it, and the commitment preimage. */
module Persistence {
  import opened Common
  import opened Strings

  /** The salt is a number while it comes from `Math.random` (or the initial 2689) and
      the query string's text once it is read back from the URL. */
  datatype Salt = Numeric(n: nat) | Text(s: string)

  /** The pages of the game, numbered 1 to 4 in the source. */
  datatype Page = Instructions | Select | Submit | Verify

  /** What `+` appends for the salt. */
  function SaltString(salt: Salt): string
  {
    match salt
    case Numeric(n) => Decimal(n)
    case Text(s) => s
  }

  /** JavaScript truthiness: the number 0 and the empty string are false. */
  predicate Truthy(salt: Salt)
  {
    match salt
    case Numeric(n) => n != 0
    case Text(s) => s != ""
  }

  /** The query parameter names. */
  const GuessKey: string := "guess"
  const SaltKey: string := "salt"
  const VerifyKey: string := "verify"

  /** `updateURLParams` as written: the guess is saved when non-empty, the salt only
      when it is truthy. */
  function SearchString(guess: seq<string>, salt: Salt): string
  {
    (if |guess| > 0 then "?" + GuessKey + "=" + Join(guess, ',') else "") +
    (if Truthy(salt) then "&" + SaltKey + "=" + SaltString(salt) else "")
  }

  /** The name of a `name=value` pair: everything before the first '='. */
  function PairName(pair: string): string
  {
    Split(pair, '=')[0]
  }

  /** The value of a `name=value` pair: everything after the first '=', or "" without one. */
  function PairValue(pair: string): string
  {
    Join(Split(pair, '=')[1..], '=')
  }

  /** The value of the first non-empty pair named `key`. */
  function FirstValue(pairs: seq<string>, key: string): (r: Option<string>)
    ensures r.None? <==> forall i :: 0 <= i < |pairs| ==> pairs[i] == "" || PairName(pairs[i]) != key
    ensures r.Some? ==> exists i :: 0 <= i < |pairs| && pairs[i] != "" && PairName(pairs[i]) == key &&
                                    r.value == PairValue(pairs[i]) &&
                                    forall j :: 0 <= j < i ==> pairs[j] == "" || PairName(pairs[j]) != key
  {
    if |pairs| == 0 then None
    else if pairs[0] != "" && PairName(pairs[0]) == key then Some(PairValue(pairs[0]))
    else
      var r := FirstValue(pairs[1..], key);
      assert forall i :: 1 <= i < |pairs| ==> pairs[i] == pairs[1..][i - 1];
      r
  }

  /** `URLSearchParams.get`: drops a leading '?', splits at '&', skips empty pieces and
      returns the value of the first pair named `key`. */
  function QueryGet(search: string, key: string): Option<string>
  {
    var body := if |search| > 0 && search[0] == '?' then search[1..] else search;
    FirstValue(Split(body, '&'), key)
  }

  /** A query parameter is truthy when it is present and not empty. */
  predicate Given(param: Option<string>)
  {
    param.Some? && param.value != ""
  }

  /** The page chosen on load: a truthy `verify` forces the verification page;
      otherwise a truthy `guess` selects the ranking page below the consensus length
      and the hash page at it; anything else keeps the instructions page. */
  function StartPage(guessParam: Option<string>, verifyParam: Option<string>): (p: Page)
    ensures Given(verifyParam) ==> p == Verify
    ensures !Given(verifyParam) && Given(guessParam) ==>
      var n := |Split(guessParam.value, ',')|;
      (n < ConsensusRequired ==> p == Select) &&
      (n == ConsensusRequired ==> p == Submit) &&
      (n > ConsensusRequired ==> p == Instructions)
    ensures !Given(verifyParam) && !Given(guessParam) ==> p == Instructions
  {
    var fromGuess :=
      if Given(guessParam) then
        var n := |Split(guessParam.value, ',')|;
        if n == 0 then Instructions
        else if n < ConsensusRequired then Select
        else if n == ConsensusRequired then Submit
        else Instructions
      else Instructions;
    if Given(verifyParam) then Verify else fromGuess
  }

  /** The state the load effect leaves behind. */
  datatype Restored = Restored(guess: seq<string>, page: Page, salt: Salt)

  /** The query-string effect run on load. `random` is `parseInt(Math.random() * 10000)`. */
  function Restore(search: string, random: nat): (r: Restored)
    requires random < 10000
    ensures Given(QueryGet(search, GuessKey)) ==> r.guess == Split(QueryGet(search, GuessKey).value, ',')
    ensures !Given(QueryGet(search, GuessKey)) ==> r.guess == []
    ensures Given(QueryGet(search, SaltKey)) ==> r.salt == Text(QueryGet(search, SaltKey).value)
    ensures !Given(QueryGet(search, SaltKey)) ==> r.salt == Numeric(random)
    ensures r.page == StartPage(QueryGet(search, GuessKey), QueryGet(search, VerifyKey))
  {
    var guessParam := QueryGet(search, GuessKey);
    var saltParam := QueryGet(search, SaltKey);
    var guess := if Given(guessParam) then Split(guessParam.value, ',') else [];
    var salt := if Given(saltParam) then Text(saltParam.value) else Numeric(random);
    Restored(guess, StartPage(guessParam, QueryGet(search, VerifyKey)), salt)
  }

  /** The commitment preimage: the comma-joined guess followed by the salt. */
  function Preimage(guess: seq<string>, salt: Salt): string
  {
    Join(guess, ',') + SaltString(salt)
  }

  /** The hash effect, run when the guess changes: a guess of exactly the consensus
      length gets `sha` of its preimage; otherwise the previous hash stays. */
  function HashAfterGuessChange(hash: string, guess: seq<string>, salt: Salt, sha: string -> string): (h: string)
    ensures |guess| == ConsensusRequired ==> h == sha(Preimage(guess, salt))
    ensures |guess| != ConsensusRequired ==> h == hash
  {
    if |guess| == ConsensusRequired then sha(Preimage(guess, salt)) else hash
  }

  /** An id that survives the query string: not empty (member ids never are), no ','
      (the join separator) and no '&' (the pair separator). */
  predicate SafeId(id: string)
  {
    id != "" && ',' !in id && '&' !in id
  }

  lemma SplitTwo(a: string, b: string, sep: char)
    requires sep !in a && sep !in b
    ensures Split(a + [sep] + b, sep) == [a, b]
  {
    SplitAtSeparator(a, b, sep);
    SplitNoSeparator(b, sep);
  }

  lemma {:induction false} JoinKeepsOut(parts: seq<string>, sep: char, c: char)
    requires c != sep && forall i :: 0 <= i < |parts| ==> c !in parts[i]
    ensures c !in Join(parts, sep)
  {
    if |parts| > 1 {
      JoinKeepsOut(parts[1..], sep, c);
    }
  }

  lemma PairOf(name: string, value: string)
    requires '=' !in name
    ensures PairName(name + "=" + value) == name
    ensures PairValue(name + "=" + value) == value
  {
    SplitAtSeparator(name, value, '=');
    JoinSplit(value, '=');
  }

  /** Reloading from a saved query string restores the guess and a salt with the same
      text, so the preimage, and with it the hash, is the same as before the reload. */
  lemma RestoreAfterSave(guess: seq<string>, salt: Salt, random: nat, hash: string, sha: string -> string)
    requires random < 10000
    requires |guess| > 0 && forall i :: 0 <= i < |guess| ==> SafeId(guess[i])
    requires Truthy(salt) && '&' !in SaltString(salt)
    ensures Restore(SearchString(guess, salt), random).guess == guess
    ensures SaltString(Restore(SearchString(guess, salt), random).salt) == SaltString(salt)
    ensures Preimage(Restore(SearchString(guess, salt), random).guess, Restore(SearchString(guess, salt), random).salt)
            == Preimage(guess, salt)
    ensures HashAfterGuessChange(hash, Restore(SearchString(guess, salt), random).guess,
                                 Restore(SearchString(guess, salt), random).salt, sha)
            == HashAfterGuessChange(hash, guess, salt, sha)
    ensures Restore(SearchString(guess, salt), random).page ==
            if |guess| < ConsensusRequired then Select
            else if |guess| == ConsensusRequired then Submit
            else Instructions
  {
    assert SearchString(guess, salt) == "?" + GuessKey + "=" + Join(guess, ',') + "&" + SaltKey + "=" + SaltString(salt);
    RestoreFromFullString(guess, SaltString(salt), random);
  }

  /** The shared step: the query string "?guess=<ids>&salt=<tail>" reads back as the
      ids and the tail. */
  lemma RestoreFromFullString(guess: seq<string>, tail: string, random: nat)
    requires random < 10000
    requires |guess| > 0 && forall i :: 0 <= i < |guess| ==> SafeId(guess[i])
    requires tail != "" && '&' !in tail
    ensures var r := Restore("?" + GuessKey + "=" + Join(guess, ',') + "&" + SaltKey + "=" + tail, random);
      r.guess == guess && r.salt == Text(tail) &&
      r.page == if |guess| < ConsensusRequired then Select
                else if |guess| == ConsensusRequired then Submit
                else Instructions
  {
    var j := Join(guess, ',');
    JoinKeepsOut(guess, ',', '&');
    FullStringParams(j, tail);
    JoinEndsWithLastPiece(guess, ',');
    assert SafeId(guess[|guess| - 1]);
    assert forall i :: 0 <= i < |guess| ==> ',' !in guess[i];
    SplitJoin(guess, ',');
    RestoreFromParams("?" + GuessKey + "=" + j + "&" + SaltKey + "=" + tail, guess, tail, random);
  }

  /** The three parameters of "?guess=<ids>&salt=<tail>". */
  lemma FullStringParams(ids: string, tail: string)
    requires '&' !in ids && '&' !in tail
    ensures QueryGet("?" + GuessKey + "=" + ids + "&" + SaltKey + "=" + tail, GuessKey) == Some(ids)
    ensures QueryGet("?" + GuessKey + "=" + ids + "&" + SaltKey + "=" + tail, SaltKey) == Some(tail)
    ensures QueryGet("?" + GuessKey + "=" + ids + "&" + SaltKey + "=" + tail, VerifyKey) == None
  {
    QueryOfTwo(GuessKey, ids, SaltKey, tail, VerifyKey);
  }

  /** The load effect on a query string whose guess reads back as `guess` and whose
      salt reads back as `tail`, without a `verify` parameter. */
  lemma RestoreFromParams(search: string, guess: seq<string>, tail: string, random: nat)
    requires random < 10000 && |guess| > 0 && tail != ""
    requires Given(QueryGet(search, GuessKey)) && Split(QueryGet(search, GuessKey).value, ',') == guess
    requires QueryGet(search, SaltKey) == Some(tail)
    requires QueryGet(search, VerifyKey) == None
    ensures Restore(search, random).guess == guess
    ensures Restore(search, random).salt == Text(tail)
    ensures Restore(search, random).page ==
            if |guess| < ConsensusRequired then Select
            else if |guess| == ConsensusRequired then Submit
            else Instructions
  {
  }

  /** The pairs of "?<k1>=<v1>&<k2>=<v2>". */
  lemma PairsOfTwo(k1: string, v1: string, k2: string, v2: string)
    requires '&' !in k1 && '&' !in v1 && '&' !in k2 && '&' !in v2
    ensures Split(("?" + k1 + "=" + v1 + "&" + k2 + "=" + v2)[1..], '&') == [k1 + "=" + v1, k2 + "=" + v2]
  {
    var a := k1 + "=" + v1;
    var b := k2 + "=" + v2;
    assert ("?" + k1 + "=" + v1 + "&" + k2 + "=" + v2)[1..] == a + ['&'] + b;
    SplitTwo(a, b, '&');
  }

  /** The parameters read back from "?<k1>=<v1>&<k2>=<v2>". */
  lemma QueryOfTwo(k1: string, v1: string, k2: string, v2: string, other: string)
    requires '&' !in k1 && '&' !in v1 && '&' !in k2 && '&' !in v2 && '=' !in k1 && '=' !in k2
    requires k1 != k2 && other != k1 && other != k2
    ensures QueryGet("?" + k1 + "=" + v1 + "&" + k2 + "=" + v2, k1) == Some(v1)
    ensures QueryGet("?" + k1 + "=" + v1 + "&" + k2 + "=" + v2, k2) == Some(v2)
    ensures QueryGet("?" + k1 + "=" + v1 + "&" + k2 + "=" + v2, other) == None
  {
    PairsOfTwo(k1, v1, k2, v2);
    PairOf(k1, v1);
    PairOf(k2, v2);
    FirstValueOfTwo(k1 + "=" + v1, k2 + "=" + v2, k1, v1, k2, v2, other);
  }

  /** Looking a key up in two non-empty pairs with distinct names. */
  lemma FirstValueOfTwo(a: string, b: string, k1: string, v1: string, k2: string, v2: string, other: string)
    requires a != "" && b != ""
    requires PairName(a) == k1 && PairValue(a) == v1 && PairName(b) == k2 && PairValue(b) == v2
    requires k1 != k2 && other != k1 && other != k2
    ensures FirstValue([a, b], k1) == Some(v1)
    ensures FirstValue([a, b], k2) == Some(v2)
    ensures FirstValue([a, b], other) == None
  {
    assert [a, b][1..] == [b];
  }

  /** The parameters read back from "?<k1>=<v1>". */
  lemma QueryOfOne(k1: string, v1: string, other: string)
    requires '&' !in k1 && '&' !in v1 && '=' !in k1 && other != k1
    ensures QueryGet("?" + k1 + "=" + v1, k1) == Some(v1)
    ensures QueryGet("?" + k1 + "=" + v1, other) == None
  {
    var a := k1 + "=" + v1;
    assert ("?" + k1 + "=" + v1)[1..] == a;
    SplitNoSeparator(a, '&');
    PairOf(k1, v1);
  }

  /** A numeric salt of 0 is falsy, so it is not saved: after a reload the page draws a
      fresh salt, and for any draw other than 0 the preimage no longer matches. */
  lemma ZeroSaltIsLost(guess: seq<string>, random: nat)
    requires 0 < random < 10000
    requires |guess| > 0 && forall i :: 0 <= i < |guess| ==> SafeId(guess[i])
    ensures QueryGet(SearchString(guess, Numeric(0)), SaltKey) == None
    ensures Restore(SearchString(guess, Numeric(0)), random).guess == guess
    ensures Restore(SearchString(guess, Numeric(0)), random).salt == Numeric(random)
    ensures var r := Restore(SearchString(guess, Numeric(0)), random);
      Preimage(r.guess, r.salt) != Preimage(guess, Numeric(0))
  {
    var j := Join(guess, ',');
    assert SearchString(guess, Numeric(0)) == "?" + GuessKey + "=" + j;
    JoinKeepsOut(guess, ',', '&');
    QueryOfOne(GuessKey, j, SaltKey);
    JoinEndsWithLastPiece(guess, ',');
    assert SafeId(guess[|guess| - 1]);
    assert forall i :: 0 <= i < |guess| ==> ',' !in guess[i];
    SplitJoin(guess, ',');
    if Decimal(random) == Decimal(0) {
      DecimalInjective(random, 0);
    }
    PreimageBindsSaltText(guess, Numeric(0), Numeric(random));
  }

  /** `updateURLParams` as evidently intended: the salt is always saved. */
  function SearchStringFixed(guess: seq<string>, salt: Salt): string
  {
    (if |guess| > 0 then "?" + GuessKey + "=" + Join(guess, ',') else "") + "&" + SaltKey + "=" + SaltString(salt)
  }

  /** With the salt always saved, every numeric salt, 0 included, survives a reload. */
  lemma RestoreAfterSaveFixed(guess: seq<string>, salt: Salt, random: nat)
    requires random < 10000
    requires |guess| > 0 && forall i :: 0 <= i < |guess| ==> SafeId(guess[i])
    requires SaltString(salt) != "" && '&' !in SaltString(salt)
    ensures Restore(SearchStringFixed(guess, salt), random).guess == guess
    ensures Preimage(Restore(SearchStringFixed(guess, salt), random).guess,
                     Restore(SearchStringFixed(guess, salt), random).salt) == Preimage(guess, salt)
  {
    assert SearchStringFixed(guess, salt) == "?" + GuessKey + "=" + Join(guess, ',') + "&" + SaltKey + "=" + SaltString(salt);
    RestoreFromFullString(guess, SaltString(salt), random);
  }

  /** Different guesses under the same salt have different preimages. */
  lemma PreimageBindsGuess(g1: seq<string>, g2: seq<string>, salt: Salt)
    requires |g1| > 0 && |g2| > 0
    requires forall i :: 0 <= i < |g1| ==> ',' !in g1[i]
    requires forall i :: 0 <= i < |g2| ==> ',' !in g2[i]
    requires Preimage(g1, salt) == Preimage(g2, salt)
    ensures g1 == g2
  {
    var p := Preimage(g1, salt);
    assert Join(g1, ',') == p[..|p| - |SaltString(salt)|] == Join(g2, ',');
    JoinInjective(g1, g2, ',');
  }

  /** The same guess under salts with different text has different preimages. */
  lemma PreimageBindsSaltText(guess: seq<string>, s1: Salt, s2: Salt)
    ensures Preimage(guess, s1) == Preimage(guess, s2) ==> SaltString(s1) == SaltString(s2)
  {
    var j := Join(guess, ',');
    assert SaltString(s1) == Preimage(guess, s1)[|j|..];
  }

  /** The last id does not end in a decimal digit. */
  predicate EndsWithNonDigit(guess: seq<string>)
  {
    |guess| > 0 && |guess[|guess| - 1]| > 0 && !IsDigit(guess[|guess| - 1][|guess[|guess| - 1]| - 1])
  }

  /** When the last id does not end in a digit, a preimage under a numeric salt
      determines both the guess and the salt. */
  lemma PreimageBindsBoth(g1: seq<string>, a: nat, g2: seq<string>, b: nat)
    requires EndsWithNonDigit(g1) && EndsWithNonDigit(g2)
    requires forall i :: 0 <= i < |g1| ==> ',' !in g1[i]
    requires forall i :: 0 <= i < |g2| ==> ',' !in g2[i]
    requires Preimage(g1, Numeric(a)) == Preimage(g2, Numeric(b))
    ensures g1 == g2 && a == b
  {
    var j1, j2 := Join(g1, ','), Join(g2, ',');
    var d1, d2 := Decimal(a), Decimal(b);
    EndsWithLastChar(g1);
    EndsWithLastChar(g2);
    DigitSuffixLength(j1, d1, j2, d2);
    DigitSuffixLength(j2, d2, j1, d1);
    var p := j1 + d1;
    assert j1 == p[..|j1|] == j2;
    assert d1 == p[|j1|..] == d2;
    JoinInjective(g1, g2, ',');
    DecimalInjective(a, b);
  }

  /** Where a string ending in a non-digit is followed by digits, the digits are the
      whole digit suffix: another split of the same string into a prefix and digits
      cannot have more digits. */
  lemma DigitSuffixLength(j1: string, d1: string, j2: string, d2: string)
    requires j1 + d1 == j2 + d2
    requires |j1| > 0 && !IsDigit(j1[|j1| - 1])
    requires AllDigits(d2)
    ensures |d2| <= |d1|
  {
    var p := j2 + d2;
    assert !IsDigit(p[|j1| - 1]);
    assert forall k :: |j2| <= k < |p| ==> IsDigit(d2[k - |j2|]) && p[k] == d2[k - |j2|];
  }

  lemma EndsWithLastChar(guess: seq<string>)
    requires EndsWithNonDigit(guess)
    ensures |Join(guess, ',')| > 0 && !IsDigit(Join(guess, ',')[|Join(guess, ',')| - 1])
  {
    var last := guess[|guess| - 1];
    JoinEndsWithLastPiece(guess, ',');
    var j := Join(guess, ',');
    assert j[|j| - |last|..][|last| - 1] == last[|last| - 1];
  }

  /** Without that condition the preimage is ambiguous at the guess/salt boundary:
      a last id "m1" with salt 2 reads the same as a last id "m" with salt 12. */
  lemma PreimageAmbiguousAtSaltBoundary(prefix: seq<string>, m: string)
    requires |prefix| > 0
    ensures Preimage(prefix + [m + "1"], Numeric(2)) == Preimage(prefix + [m], Numeric(12))
    ensures prefix + [m + "1"] != prefix + [m]
  {
    JoinSnoc(prefix, m + "1", ',');
    JoinSnoc(prefix, m, ',');
    assert Decimal(12) == "12";
    assert (prefix + [m + "1"])[|prefix|] != (prefix + [m])[|prefix|];
  }

  lemma {:induction false} JoinSnoc(parts: seq<string>, x: string, sep: char)
    requires |parts| > 0
    ensures Join(parts + [x], sep) == Join(parts, sep) + [sep] + x
  {
    if |parts| > 1 {
      JoinSnoc(parts[1..], x, sep);
      assert (parts + [x])[1..] == parts[1..] + [x];
    } else {
      assert (parts + [x])[1..] == [x];
    }
  }
}
