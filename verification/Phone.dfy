/**
 The one stored shape of a phone number, and the migration that put every number into it. Both rest on
 the known country codes being prefix-free: taking out a trunk 0 never changes which code is read, so
 normalising twice is normalising once.
 */
module Phone {
  import opened Results
  import opened Text

  /** Longest first, though being prefix-free makes the order not matter. */
  const CODES: seq<string> := [
    "971", "852", "966", "968", "965", "974",
    "91", "98", "92", "94", "44", "61", "64", "65", "86", "81", "82",
    "49", "33", "39", "34", "27", "20", "60", "66", "63",
    "1", "7"]

  /** The characters people put between digits. */
  predicate IsSpelling(c: char) {
    IsSpace(c) || c in "-()."
  }

  function Clean(s: string): string {
    if s == [] then [] else (if IsSpelling(s[0]) then [] else [s[0]]) + Clean(s[1..])
  }

  function StripZeros(s: string): (r: string)
    ensures r == [] || r[0] != '0'
    ensures |r| <= |s| && r == s[|s| - |r|..]
  {
    if s != [] && s[0] == '0' then StripZeros(s[1..]) else s
  }

  /** Where in the list the first code that begins these digits is. */
  function CodeFrom(digits: string, i: nat): (k: nat)
    requires i <= |CODES|
    ensures i <= k <= |CODES| && (k < |CODES| ==> CODES[k] <= digits)
    ensures forall j :: i <= j < k ==> !(CODES[j] <= digits)
    decreases |CODES| - i
  {
    if i == |CODES| || CODES[i] <= digits then i else CodeFrom(digits, i + 1)
  }

  /** A number with its "+", the trunk 0 after its country code taken out. */
  function WithoutTrunk(cleaned: string): string
    requires cleaned != []
  {
    var digits := cleaned[1..];
    var k := CodeFrom(digits, 0);
    if k == |CODES| then cleaned else "+" + CODES[k] + StripZeros(digits[|CODES[k]|..])
  }

  function NormalizePhone(value: string): string {
    var cleaned := Clean(value);
    if cleaned == [] || cleaned[0] != '+' then cleaned else WithoutTrunk(cleaned)
  }

  predicate IsDigit(c: char) {
    '0' <= c <= '9'
  }

  /** E.164: "+" and 8 to 15 digits, the first not 0. */
  predicate IsE164(s: string) {
    9 <= |s| <= 16 && s[0] == '+' && s[1] != '0' && forall i :: 1 <= i < |s| ==> IsDigit(s[i])
  }

  /** That is "+" and eight to fifteen digits that do not begin with 0. */
  lemma E164Exactly(s: string)
    ensures IsE164(s) <==>
              && s != [] && s[0] == '+' && 8 <= |s[1..]| <= 15 && s[1..][0] != '0'
              && forall i :: 0 <= i < |s[1..]| ==> s[1..][i] in "0123456789"
  {
    if IsE164(s) {
      forall i | 0 <= i < |s[1..]|
        ensures s[1..][i] in "0123456789"
      {
        assert IsDigit(s[i + 1]);
      }
    }
  }

  // --- Idempotence ---

  lemma OneDigitCodes(i: nat, j: nat)
    requires 26 <= i < |CODES| && j < |CODES| && CODES[i][0] == CODES[j][0]
    ensures i == j
  {
  }

  lemma TwoDigitCodes(i: nat, j: nat)
    requires 6 <= i < 26 && j < |CODES| && |CODES[j]| >= 2 && CODES[i][0] == CODES[j][0] && CODES[i][1] == CODES[j][1]
    ensures i == j
  {
  }

  lemma ThreeDigitCodes(i: nat, j: nat)
    requires i < 6 && j < |CODES| && CODES[i] == CODES[j]
    ensures i == j
  {
    assert CODES[i][0] == CODES[j][0] && CODES[i][1] == CODES[j][1] && CODES[i][2] == CODES[j][2];
  }

  lemma CodeLengths(i: nat)
    requires i < |CODES|
    ensures |CODES[i]| == if i < 6 then 3 else if i < 26 then 2 else 1
    ensures |CODES| == 28
  {
  }

  /** No code begins another: one that did would share its first digits, and no two codes do. */
  lemma CodesArePrefixFree(i: nat, j: nat)
    requires i < |CODES| && j < |CODES| && CODES[i] <= CODES[j]
    ensures i == j
  {
    hide CODES;
    CodeLengths(i);
    CodeLengths(j);
    assert CODES[i][0] == CODES[j][0];
    if i < 6 {
      assert CODES[i] == CODES[j];
      ThreeDigitCodes(i, j);
    } else if i < 26 {
      assert CODES[i][1] == CODES[j][1];
      TwoDigitCodes(i, j);
    } else {
      OneDigitCodes(i, j);
    }
  }

  lemma BeginsOneAnother(a: string, b: string, digits: string)
    requires a <= digits && b <= digits
    ensures a <= b || b <= a
  {
    assert forall i :: 0 <= i < |a| ==> a[i] == digits[i];
    assert forall i :: 0 <= i < |b| ==> b[i] == digits[i];
  }

  /** The code read from some digits is read from any digits it begins. */
  lemma CodeIsRead(k: nat, rest: string)
    requires k < |CODES|
    ensures CodeFrom(CODES[k] + rest, 0) == k
  {
    hide CODES;
    var digits := CODES[k] + rest;
    var j := CodeFrom(digits, 0);
    assert CODES[k] <= digits;
    BeginsOneAnother(CODES[j], CODES[k], digits);
    if CODES[j] <= CODES[k] {
      CodesArePrefixFree(j, k);
    } else {
      CodesArePrefixFree(k, j);
    }
  }

  lemma {:induction false} StripsOnce(s: string)
    ensures StripZeros(StripZeros(s)) == StripZeros(s)
  {
  }

  lemma WithoutTrunkOnce(cleaned: string)
    requires cleaned != [] && cleaned[0] == '+'
    ensures WithoutTrunk(cleaned) != [] && WithoutTrunk(cleaned)[0] == '+'
    ensures WithoutTrunk(WithoutTrunk(cleaned)) == WithoutTrunk(cleaned)
  {
    hide CODES, CodeFrom, StripZeros;
    var digits := cleaned[1..];
    var k := CodeFrom(digits, 0);
    if k < |CODES| {
      var national := StripZeros(digits[|CODES[k]|..]);
      var once := WithoutTrunk(cleaned);
      assert once[1..] == CODES[k] + national;
      CodeIsRead(k, national);
      assert (CODES[k] + national)[|CODES[k]|..] == national;
      StripsOnce(digits[|CODES[k]|..]);
    }
  }

  /** Taking out the trunk leaves two parts of the number, joined. */
  lemma TakesOut(cleaned: string) returns (n: nat, m: nat)
    requires cleaned != [] && cleaned[0] == '+'
    ensures n <= |cleaned| && m <= |cleaned| && WithoutTrunk(cleaned) == cleaned[..n] + cleaned[m..]
  {
    hide CODES, CodeFrom, StripZeros;
    var digits := cleaned[1..];
    var k := CodeFrom(digits, 0);
    if k == |CODES| {
      n, m := |cleaned|, |cleaned|;
      assert cleaned[..n] + cleaned[m..] == cleaned;
    } else {
      var code := CODES[k];
      var national := StripZeros(digits[|code|..]);
      n, m := 1 + |code|, |cleaned| - |national|;
      assert "+" + code == cleaned[..n];
      assert national == cleaned[m..];
    }
  }

  predicate IsClean(s: string) {
    forall i :: 0 <= i < |s| ==> !IsSpelling(s[i])
  }

  lemma {:induction false} CleanIsClean(s: string)
    ensures IsClean(Clean(s))
    ensures IsClean(s) ==> Clean(s) == s
  {
    if s != [] {
      CleanIsClean(s[1..]);
      if IsClean(s) {
        assert IsClean(s[1..]) by {
          assert forall i :: 0 <= i < |s[1..]| ==> s[1..][i] == s[i + 1];
        }
        assert [s[0]] + s[1..] == s;
      }
    }
  }

  lemma PartIsClean(s: string, i: nat, j: nat)
    requires IsClean(s) && i <= j <= |s|
    ensures IsClean(s[i..j])
  {
    assert forall k :: 0 <= k < j - i ==> s[i..j][k] == s[i + k];
  }

  lemma JoinedIsClean(a: string, b: string)
    requires IsClean(a) && IsClean(b)
    ensures IsClean(a + b)
  {
  }

  lemma WithoutTrunkIsClean(cleaned: string)
    requires cleaned != [] && cleaned[0] == '+' && IsClean(cleaned)
    ensures IsClean(WithoutTrunk(cleaned))
  {
    hide WithoutTrunk, IsClean;
    var n, m := TakesOut(cleaned);
    PartIsClean(cleaned, 0, n);
    PartIsClean(cleaned, m, |cleaned|);
    JoinedIsClean(cleaned[0..n], cleaned[m..|cleaned|]);
    assert cleaned[0..n] == cleaned[..n] && cleaned[m..|cleaned|] == cleaned[m..];
  }

  /** Normalising a number that was normalised changes nothing. */
  lemma NormalizeIsIdempotent(value: string)
    ensures NormalizePhone(NormalizePhone(value)) == NormalizePhone(value)
  {
    hide WithoutTrunk;
    var cleaned := Clean(value);
    CleanIsClean(value);
    CleanIsClean(cleaned);
    if cleaned != [] && cleaned[0] == '+' {
      WithoutTrunkIsClean(cleaned);
      WithoutTrunkOnce(cleaned);
      CleanIsClean(WithoutTrunk(cleaned));
    }
  }

  // --- What a number comes to ---

  /** Cleaned, a number is exactly the characters somebody meant, in their order. */
  lemma {:induction false} CleanExactly(s: string) returns (at: seq<nat>)
    ensures IsFilter(s, Clean(s), at, c => !IsSpelling(c))
  {
    at := [];
    if s != [] {
      var front, last := s[..|s| - 1], s[|s| - 1];
      var before := CleanExactly(front);
      at := FilterGrows(front, Clean(front), before, c => !IsSpelling(c), last);
      CleanJoins(front, [last]);
      assert front + [last] == s;
      assert [last][1..] == [];
      assert Clean([last]) == if IsSpelling(last) then [] else [last];
    }
  }

  lemma {:induction false} CleanJoins(a: string, b: string)
    ensures Clean(a + b) == Clean(a) + Clean(b)
  {
    if a == [] {
      assert a + b == b;
    } else {
      assert (a + b)[1..] == a[1..] + b;
      CleanJoins(a[1..], b);
    }
  }

  predicate AllZeros(s: string) {
    forall i :: 0 <= i < |s| ==> s[i] == '0'
  }

  lemma {:induction false} StripsAllZeros(zeros: string, rest: string)
    requires AllZeros(zeros) && (rest != [] ==> rest[0] != '0')
    ensures StripZeros(zeros + rest) == rest
  {
    if zeros == [] {
      assert zeros + rest == rest;
    } else {
      assert (zeros + rest)[1..] == zeros[1..] + rest;
      StripsAllZeros(zeros[1..], rest);
    }
  }

  lemma TrunkAfter(k: nat, zeros: string, rest: string)
    requires k < |CODES| && AllZeros(zeros) && (rest != [] ==> rest[0] != '0')
    ensures WithoutTrunk("+" + (CODES[k] + (zeros + rest))) == "+" + CODES[k] + rest
  {
    hide CODES, CodeFrom, StripZeros;
    var cleaned := "+" + (CODES[k] + (zeros + rest));
    assert cleaned[1..] == CODES[k] + (zeros + rest);
    CodeIsRead(k, zeros + rest);
    assert (CODES[k] + (zeros + rest))[|CODES[k]|..] == zeros + rest;
    StripsAllZeros(zeros, rest);
  }

  /** Only the trunk zeros after a known country code are taken out of a number with its "+". */
  lemma TrunkTakenOut(value: string, k: nat, zeros: string, rest: string)
    requires k < |CODES| && AllZeros(zeros) && (rest != [] ==> rest[0] != '0')
    requires Clean(value) == "+" + (CODES[k] + (zeros + rest))
    ensures NormalizePhone(value) == "+" + CODES[k] + rest
  {
    hide CODES, WithoutTrunk;
    TrunkAfter(k, zeros, rest);
  }

  /** A number without its "+", or with no known code after it, is only cleaned. */
  lemma OnlyCleaned(value: string)
    requires Clean(value) == [] || Clean(value)[0] != '+' || forall k :: 0 <= k < |CODES| ==> !(CODES[k] <= Clean(value)[1..])
    ensures NormalizePhone(value) == Clean(value)
  {
    hide CODES;
  }

  /** One number, written with its "+", without it, with a trunk 0, and bare: the spellings the migration was written for. */
  lemma OneNumber(mobile: string)
    requires |mobile| == 10 && mobile[0] in "6789" && forall i :: 0 <= i < 10 ==> IsDigit(mobile[i])
    ensures Normalise("+91" + mobile) == "+91" + mobile
    ensures Normalise("+910" + mobile) == "+91" + mobile
    ensures Normalise("91" + mobile) == "+91" + mobile
    ensures Normalise(mobile) == "+91" + mobile
  {
    hide CODES, Clean, WithoutTrunk, StripZeros, WithPlus;
    NinetyOne(mobile);
    DigitsAreClean(mobile);
    BareOnes(mobile);
  }

  /** After +91 only the trunk 0 goes. */
  lemma NinetyOne(mobile: string)
    requires mobile != [] && mobile[0] != '0'
    ensures WithoutTrunk("+91" + mobile) == "+91" + mobile && WithoutTrunk("+910" + mobile) == "+91" + mobile
  {
    hide CODES, WithoutTrunk;
    CodeNinetyOne();
    TrunkAfter(6, "", mobile);
    TrunkAfter(6, "0", mobile);
    assert "+" + ("91" + ("" + mobile)) == "+91" + mobile;
    assert "+" + ("91" + ("0" + mobile)) == "+910" + mobile;
    assert "+" + "91" + mobile == "+91" + mobile;
  }

  lemma CodeNinetyOne()
    ensures |CODES| > 6 && CODES[6] == "91"
  {
  }

  lemma DigitsAreClean(mobile: string)
    requires forall i :: 0 <= i < |mobile| ==> IsDigit(mobile[i])
    ensures Clean("+91" + mobile) == "+91" + mobile && Clean("+910" + mobile) == "+910" + mobile
    ensures Clean("91" + mobile) == "91" + mobile && Clean(mobile) == mobile
  {
    hide Clean, IsClean;
    DigitsClean(mobile);
    PrefixesClean();
    JoinedIsClean("+91", mobile);
    JoinedIsClean("+910", mobile);
    JoinedIsClean("91", mobile);
    CleanIsClean("+91" + mobile);
    CleanIsClean("+910" + mobile);
    CleanIsClean("91" + mobile);
    CleanIsClean(mobile);
  }

  lemma DigitsClean(digits: string)
    requires forall i :: 0 <= i < |digits| ==> IsDigit(digits[i])
    ensures IsClean(digits)
  {
  }

  lemma PrefixesClean()
    ensures IsClean("+91") && IsClean("+910") && IsClean("91")
  {
  }

  lemma BareOnes(mobile: string)
    requires |mobile| == 10 && mobile[0] in "6789" && forall i :: 0 <= i < 10 ==> IsDigit(mobile[i])
    ensures WithPlus("+91" + mobile) == "+91" + mobile && WithPlus("+910" + mobile) == "+910" + mobile
    ensures WithPlus("91" + mobile) == "+91" + mobile && WithPlus(mobile) == "+91" + mobile
  {
    assert ("91" + mobile)[0] == '9';
    assert "+" + ("91" + mobile) == "+91" + mobile;
  }

  // --- The migration ---

  /** A bare number given its "+": Indian, if it looks like an Indian mobile. */
  function WithPlus(cleaned: string): (r: string)
    ensures r != [] && r[0] == '+'
  {
    if cleaned != [] && cleaned[0] == '+' then cleaned
    else
      var digits := if |cleaned| != 10 then StripZeros(cleaned) else cleaned;
      if |digits| == 10 && digits[0] in "6789" then "+91" + digits else "+" + digits
  }

  function Normalise(value: string): string {
    WithoutTrunk(WithPlus(Clean(value)))
  }

  lemma WithPlusIsClean(cleaned: string)
    requires IsClean(cleaned)
    ensures IsClean(WithPlus(cleaned))
  {
    hide IsClean, StripZeros;
    assert IsClean("+") && IsClean("+91") by { PlusIsClean(); }
    var digits := if |cleaned| != 10 then StripZeros(cleaned) else cleaned;
    PartIsClean(cleaned, |cleaned| - |digits|, |cleaned|);
    assert digits == cleaned[|cleaned| - |digits|..|cleaned|];
    JoinedIsClean("+", digits);
    JoinedIsClean("+91", digits);
  }

  lemma PlusIsClean()
    ensures IsClean("+") && IsClean("+91")
  {
  }

  /** A bare number is read without its leading zeros, unless it is ten long; Indian if it is ten long and begins with 6 to 9. */
  lemma BareNumberIs(value: string, zeros: string, rest: string)
    requires AllZeros(zeros) && (rest != [] ==> rest[0] != '0') && Clean(value) == zeros + rest
    requires Clean(value) == [] || Clean(value)[0] != '+'
    ensures var digits := if |zeros| + |rest| == 10 then zeros + rest else rest;
            Normalise(value) ==
              if |digits| == 10 && (digits[0] == '6' || digits[0] == '7' || digits[0] == '8' || digits[0] == '9')
              then WithoutTrunk("+91" + digits) else WithoutTrunk("+" + digits)
  {
    hide WithoutTrunk, StripZeros, Clean, CODES;
    StripsAllZeros(zeros, rest);
  }

  /** A number with its "+" is normalised as it is everywhere else. */
  lemma PlusNumberIs(value: string)
    requires Clean(value) != [] && Clean(value)[0] == '+'
    ensures Normalise(value) == NormalizePhone(value)
  {
    hide WithoutTrunk;
  }

  /** What the migration writes is a fixed point of both normalisers. */
  lemma NormaliseIsFixed(value: string)
    ensures Normalise(Normalise(value)) == Normalise(value)
    ensures NormalizePhone(Normalise(value)) == Normalise(value)
  {
    hide WithoutTrunk, CODES, IsClean, Clean, WithPlus;
    var cleaned := Clean(value);
    CleanIsClean(value);
    WithPlusIsClean(cleaned);
    var plus := WithPlus(cleaned);
    WithoutTrunkIsClean(plus);
    WithoutTrunkOnce(plus);
    CleanIsClean(WithoutTrunk(plus));
    PlusStays(WithoutTrunk(plus));
  }

  lemma PlusStays(s: string)
    requires s != [] && s[0] == '+'
    ensures WithPlus(s) == s
  {
  }

  predicate Distinct(phones: seq<string>) {
    forall i, j :: 0 <= i < j < |phones| ==> phones[i] != phones[j]
  }

  function Targets(phones: seq<string>): seq<string> {
    seq(|phones|, i requires 0 <= i < |phones| => Normalise(phones[i]))
  }

  /** Halfway through: the first `n` rewritten, the rest as they were. */
  function PartWay(phones: seq<string>, n: nat): seq<string>
    requires n <= |phones|
  {
    Targets(phones)[..n] + phones[n..]
  }

  /** A number already rewritten never meets another still in its old shape, or the two would meet in the end. */
  lemma NeverMeets(phones: seq<string>, i: nat, j: nat)
    requires i < j < |phones| && Distinct(Targets(phones))
    ensures Targets(phones)[i] != phones[j]
  {
    hide Normalise;
    NormaliseIsFixed(phones[i]);
    var targets := Targets(phones);
    assert targets[i] != targets[j];
    assert targets[i] == Normalise(phones[i]) && targets[j] == Normalise(phones[j]);
  }

  lemma UniquePartWay(phones: seq<string>, n: nat)
    requires n <= |phones| && Distinct(phones) && Distinct(Targets(phones))
    ensures Distinct(PartWay(phones, n))
  {
    hide Normalise;
    var part := PartWay(phones, n);
    forall i, j | 0 <= i < j < |phones|
      ensures part[i] != part[j]
    {
      NeverMeets(phones, i, j);
    }
  }

  datatype Outcome = Upgraded | Invalid(rows: set<nat>) | Clashes(rows: set<nat>)

  /**
   The rewrite, row by row, after checking that it can be done at all. `states` is the table after each
   update: its numbers are unique every time.
   */
  method Upgrade(phones: array<string>) returns (outcome: Outcome, ghost states: seq<seq<string>>)
    requires Distinct(phones[..])
    modifies phones
    ensures outcome.Upgraded? <==>
      Distinct(Targets(old(phones[..]))) && forall i :: 0 <= i < phones.Length ==> IsE164(Normalise(old(phones[..])[i]))
    ensures !outcome.Upgraded? ==> phones[..] == old(phones[..]) && states == []
    ensures outcome.Upgraded? ==> phones[..] == Targets(old(phones[..]))
    ensures forall i :: 0 <= i < |states| ==> Distinct(states[i])
    ensures outcome.Upgraded? ==> |states| == phones.Length
    ensures forall i :: 0 <= i < |states| && i < phones.Length ==> states[i] == PartWay(old(phones[..]), i + 1)
    ensures outcome.Invalid? ==>
      forall i: nat :: i in outcome.rows <==> i < phones.Length && !IsE164(Normalise(old(phones[..])[i]))
    ensures outcome.Clashes? ==>
      forall i: nat :: i in outcome.rows <==> i < phones.Length && Meets(Targets(old(phones[..])), i)
  {
    hide IsE164, Normalise, PartWay;
    ghost var was := phones[..];
    states := [];
    var target: seq<string> := [];
    var invalid: set<nat> := {};
    for i := 0 to phones.Length
      invariant phones[..] == was && |target| == i && target == Targets(was)[..i]
      invariant forall k: nat :: k in invalid <==> k < |target| && !IsE164(target[k])
    {
      target := target + [Normalise(phones[i])];
      if !IsE164(target[i]) {
        invalid := invalid + {i};
      }
    }
    assert target == Targets(was);
    assert forall k :: 0 <= k < |target| ==> target[k] == Normalise(was[k]);
    if invalid != {} {
      return Invalid(invalid), [];
    }
    var clashes := Clashing(target);
    if clashes != {} {
      return Clashes(clashes), [];
    }
    for i := 0 to phones.Length
      invariant forall k :: 0 <= k < phones.Length ==> phones[k] == if k < i then target[k] else was[k]
      invariant |states| == i
      invariant forall k :: 0 <= k < i ==> states[k] == PartWay(was, k + 1) && Distinct(states[k])
    {
      if target[i] != phones[i] {
        phones[i] := target[i];
      }
      PartWayIs(was, i + 1, phones[..]);
      UniquePartWay(was, i + 1);
      states := states + [phones[..]];
    }
    assert phones[..] == target;
    return Upgraded, states;
  }

  predicate Meets(targets: seq<string>, i: nat) {
    i < |targets| && exists j: nat :: j < |targets| && j != i && targets[j] == targets[i]
  }

  /** The rows whose number another row would share. */
  method Clashing(target: seq<string>) returns (rows: set<nat>)
    ensures forall i: nat :: i in rows <==> Meets(target, i)
    ensures rows == {} <==> Distinct(target)
  {
    var seen: map<string, nat> := map[];
    rows := {};
    for i := 0 to |target|
      invariant forall p :: p in seen ==> seen[p] < i && target[seen[p]] == p
      invariant forall k :: 0 <= k < i ==> target[k] in seen
      invariant forall k: nat :: k in rows <==> k < i && Meets(target[..i], k)
    {
      if target[i] in seen {
        rows := rows + {seen[target[i]], i};
      } else {
        seen := seen[target[i] := i];
      }
    }
    if Distinct(target) {
      assert forall k :: k !in rows;
    } else {
      ghost var i, j :| 0 <= i < j < |target| && target[i] == target[j];
      assert Meets(target, i);
      assert i in rows;
    }
  }

  lemma PartWayIs(phones: seq<string>, n: nat, now: seq<string>)
    requires n <= |phones| && |now| == |phones|
    requires forall k :: 0 <= k < |phones| ==> now[k] == if k < n then Normalise(phones[k]) else phones[k]
    ensures now == PartWay(phones, n)
  {
    hide Normalise;
  }
}
