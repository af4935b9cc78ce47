/** NOR flash as the store sees it: an erase sets bits, programming only clears them. */
module NorFlash {
  import opened ByteValue

  function Blanks(n: nat): (s: seq<Byte>)
    ensures |s| == n
  {
    seq(n, _ => 0xFF)
  }

  predicate IsBlank(s: seq<Byte>) { forall i :: 0 <= i < |s| ==> s[i] == 0xFF }

  function And(a: Byte, b: Byte): Byte { a & b }

  lemma AndLaws(a: Byte)
    ensures And(0xFF, a) == a && And(a, a) == a && And(a, 0xFF) == a
  {
  }

  /** The region after programming data at its start. */
  function Programmed(region: seq<Byte>, data: seq<Byte>): (r: seq<Byte>)
    requires |data| <= |region|
    ensures |r| == |region|
  {
    seq(|region|, i requires 0 <= i < |region| => if i < |data| then And(region[i], data[i]) else region[i])
  }

  /** How a program call ended; a failing one may have reached some leading bytes. */
  datatype Outcome = Done | Failed(reached: nat)

  function Reached(data: seq<Byte>, outcome: Outcome): (r: seq<Byte>)
    ensures |r| <= |data| && r <= data
  {
    if outcome.Failed? && outcome.reached < |data| then data[..outcome.reached] else data
  }

  lemma ProgramBlank(region: seq<Byte>, data: seq<Byte>)
    requires |data| <= |region| && IsBlank(region[..|data|])
    ensures Programmed(region, data) == data + region[|data|..]
  {
    forall i | 0 <= i < |data| ensures And(region[i], data[i]) == data[i] {
      assert region[i] == region[..|data|][i];
      AndLaws(data[i]);
    }
  }

  /** Programming what is already there, or any leading part of it, changes nothing. */
  lemma ProgramAgain(region: seq<Byte>, data: seq<Byte>)
    requires data <= region
    ensures Programmed(region, data) == region
  {
    forall i | 0 <= i < |data| ensures And(region[i], data[i]) == region[i] {
      AndLaws(data[i]);
    }
  }

  lemma ProgramNothing(region: seq<Byte>)
    ensures Programmed(region, []) == region
  {
  }

  // ----- erases that fail halfway

  function Or(a: Byte, b: Byte): Byte { a | b }

  lemma OrLaws(a: Byte, b: Byte)
    ensures And(Or(a, b), a) == a && And(a, Or(a, b)) == a && Or(a, 0) == a && Or(0xFF, b) == 0xFF
  {
  }

  /** The region after an erase that failed: some bits were raised, those set in the mask. */
  function Raised(region: seq<Byte>, mask: seq<Byte>): (r: seq<Byte>)
    ensures |r| == |region|
  {
    seq(|region|, i requires 0 <= i < |region| => if i < |mask| then Or(region[i], mask[i]) else region[i])
  }

  /** No bit of before was lost. */
  ghost predicate Gained(before: seq<Byte>, after: seq<Byte>) {
    |before| == |after| && forall i :: 0 <= i < |before| ==> And(before[i], after[i]) == before[i]
  }

  lemma RaisedGains(region: seq<Byte>, mask: seq<Byte>)
    ensures Gained(region, Raised(region, mask))
    ensures IsBlank(region) ==> Raised(region, mask) == region
  {
    forall i | 0 <= i < |region| ensures And(region[i], Raised(region, mask)[i]) == region[i] {
      OrLaws(region[i], if i < |mask| then mask[i] else 0);
      AndLaws(region[i]);
    }
    if IsBlank(region) {
      forall i | 0 <= i < |region| ensures Raised(region, mask)[i] == region[i] {
        OrLaws(region[i], if i < |mask| then mask[i] else 0);
      }
    }
  }

  lemma AndLowers(a: Byte, b: Byte)
    ensures And(And(a, b), a) == And(a, b) && And(And(a, b), b) == And(a, b)
  {
  }

  /** Programming raises no bit: what is set afterwards was set before, and in the data. */
  lemma ProgramLowers(region: seq<Byte>, data: seq<Byte>)
    requires |data| <= |region|
    ensures Gained(Programmed(region, data), region) && Gained(Programmed(region, data)[..|data|], data)
  {
    var p := Programmed(region, data);
    forall i | 0 <= i < |region| ensures And(p[i], region[i]) == p[i] && (i < |data| ==> And(p[i], data[i]) == p[i]) {
      AndLowers(region[i], if i < |data| then data[i] else 0);
      AndLaws(region[i]);
    }
  }

  /** What was there before comes back when it is programmed where bits were only raised. */
  lemma ProgramRaised(region: seq<Byte>, mask: seq<Byte>, data: seq<Byte>)
    requires data <= region
    ensures Programmed(Raised(region, mask), data) == data + Raised(region, mask)[|data|..]
  {
    forall i | 0 <= i < |data| ensures And(Raised(region, mask)[i], data[i]) == data[i] {
      OrLaws(region[i], if i < |mask| then mask[i] else 0);
      AndLaws(region[i]);
    }
  }

  lemma BlankIsBlanks(s: seq<Byte>)
    ensures IsBlank(s) <==> s == Blanks(|s|)
  {
  }

  lemma SliceOfSlice(s: seq<Byte>, a: nat, b: nat, lo: nat, hi: nat)
    requires a <= b <= |s| && lo <= hi <= b - a
    ensures s[a..b][lo..hi] == s[a + lo..a + hi]
  {
    assert forall k :: 0 <= k < hi - lo ==> s[a..b][lo..hi][k] == s[a + lo + k];
  }

  /** Where the four parts of a record lie in a region that starts with it. */
  lemma Parts(region: seq<Byte>, a: seq<Byte>, b: seq<Byte>, c: seq<Byte>, d: seq<Byte>)
    requires a + b + c + d <= region
    ensures region[..|a|] == a && region[|a|..|a| + |b|] == b
    ensures region[|a| + |b|..|a| + |b| + |c|] == c
    ensures region[|a| + |b| + |c|..|a| + |b| + |c| + |d|] == d
  {
    var r := a + b + c + d;
    assert region[..|r|] == r;
    assert forall i :: 0 <= i < |r| ==> region[i] == r[i];
  }
}
