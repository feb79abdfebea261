/** Road-rule uploads: three parallel comma lists in, the accepted ranks out. */
module RoadRules {
  import opened Wrappers
  import opened Text
  import opened Decimal
  import opened GameRequest

  // ----- comma lists -----

  function SplitCommas(s: string): (r: seq<string>)
    ensures |r| >= 1
  {
    if s == "" then [""]
    else
      var rest := SplitCommas(s[1..]);
      if s[0] == ',' then [""] + rest else [[s[0]] + rest[0]] + rest[1..]
  }

  function JoinCommas(xs: seq<string>): string
  {
    if xs == [] then "" else if |xs| == 1 then xs[0] else xs[0] + "," + JoinCommas(xs[1..])
  }

  lemma {:induction false} SplitHead(x: string, s: string)
    requires ',' !in x
    ensures SplitCommas(x + "," + s) == [x] + SplitCommas(s) && SplitCommas(x) == [x]
  {
    var t := x + "," + s;
    if x == "" {
      assert t == "," + s && t[1..] == s;
    } else {
      SplitHead(x[1..], s);
      assert t[1..] == x[1..] + "," + s;
      assert [x[0]] + x[1..] == x;
    }
  }

  lemma {:induction false} SplitJoin(xs: seq<string>)
    requires xs != [] && forall i :: 0 <= i < |xs| ==> ',' !in xs[i]
    ensures SplitCommas(JoinCommas(xs)) == xs
  {
    if |xs| == 1 {
      SplitHead(xs[0], "");
    } else {
      SplitJoin(xs[1..]);
      SplitHead(xs[0], JoinCommas(xs[1..]));
    }
  }

  // ----- which entries count -----

  /** The three lists of a request. */
  datatype Upload = Upload(ranks: seq<string>, values: seq<string>, cars: seq<string>)
  {
    /** As far as all three lists go. */
    function Size(): nat
    {
      var n := if |values| < |ranks| then |values| else |ranks|;
      if |cars| < n then |cars| else n
    }

    /** The rank of an entry: below 128, with a 64-bit value and a car that is not blank. */
    function Accepted(i: nat): Option<int>
      requires i < Size()
    {
      var rank := ParseInt(Trim(ranks[i], IsSpace), LIMIT64);
      if rank.None? || rank.value < 0 || rank.value >= 128 then None
      else if ParseInt(Trim(values[i], IsSpace), LIMIT64).None? then None
      else if Trim(cars[i], IsSpace) == "" then None
      else rank
    }

    function Entries(): (r: seq<Option<int>>)
      ensures |r| == Size()
    {
      seq(Size(), i requires 0 <= i < Size() => Accepted(i))
    }
  }

  /** Entry `i` is accepted and the first one of its rank. */
  predicate IsFirst(es: seq<Option<int>>, i: nat)
    requires i < |es|
  {
    es[i].Some? && forall j :: 0 <= j < i ==> es[j] != es[i]
  }

  /** The accepted ranks in the order of their first occurrence. */
  function Valid(es: seq<Option<int>>): seq<int>
  {
    if es == [] then []
    else
      var n := |es| - 1;
      Valid(es[..n]) + (if IsFirst(es, n) then [es[n].value] else [])
  }

  function RequestUpload(request: string): Upload
  {
    Upload(SplitCommas(Field(request, "R")), SplitCommas(Field(request, "V")), SplitCommas(Field(request, "C")))
  }

  function PrintAll(ranks: seq<int>): (r: seq<string>)
    ensures |r| == |ranks|
  {
    seq(|ranks|, i requires 0 <= i < |ranks| => Print(ranks[i]))
  }

  function Response(ranks: seq<int>): string { Payload([("VALID", JoinCommas(PrintAll(ranks)))]) }

  function RoadRuleUpload(request: string): string { Response(Valid(RequestUpload(request).Entries())) }

  lemma ValidStep(es: seq<Option<int>>, i: nat)
    requires i < |es|
    ensures Valid(es[..i + 1]) == Valid(es[..i]) + (if IsFirst(es, i) then [es[i].value] else [])
    ensures PrintAll(Valid(es[..i + 1])) == PrintAll(Valid(es[..i])) + (if IsFirst(es, i) then [Print(es[i].value)] else [])
  {
    hide Print;
    assert es[..i + 1][..i] == es[..i];
  }

  method GetLocalRoadRuleUploadRecord(request: string) returns (r: string)
    ensures r == RoadRuleUpload(request)
  {
    hide Print; hide Valid; hide IsFirst; hide ParseInt; hide Field; hide Trim; hide SplitCommas;
    var u := RequestUpload(request);
    var entries := u.Size();
    ghost var es := u.Entries();
    var valid: seq<string> := [];
    var seen: set<int> := {};
    assert PrintAll(Valid([])) == [] by { EmptyValid(); }
    assert es[..0] == [];
    for i := 0 to entries
      invariant valid == PrintAll(Valid(es[..i]))
      invariant Seen(seen, es, i)
    {
      ValidStep(es, i);
      FirstUnseen(es, i, seen);
      assert es[i] == u.Accepted(i);
      assert es[..i + 1] == es[..i] + [es[i]];
      var rank := ParseInt(Trim(u.ranks[i], IsSpace), LIMIT64);
      if rank.None? || rank.value < 0 || rank.value >= 128 {
        continue;
      }
      if ParseInt(Trim(u.values[i], IsSpace), LIMIT64).None? {
        continue;
      }
      if Trim(u.cars[i], IsSpace) == "" {
        continue;
      }
      assert rank == es[i];
      if rank.value in seen {
        assert seen + {rank.value} == seen;
        continue;
      }
      seen := seen + {rank.value};
      valid := valid + [Print(rank.value)];
    }
    assert es[..entries] == es;
    OneLine("VALID", JoinCommas(valid));
    r := "VALID=" + JoinCommas(valid) + "\n" + [0 as char];
  }

  lemma EmptyValid()
    ensures PrintAll(Valid([])) == []
  {
  }

  /** `seen` are the accepted ranks of the first `i` entries. */
  ghost predicate Seen(seen: set<int>, es: seq<Option<int>>, i: nat)
    requires i <= |es|
  {
    && (forall rank <- seen :: exists k :: 0 <= k < i && es[k] == Some(rank))
    && (forall k :: 0 <= k < i && es[k].Some? ==> es[k].value in seen)
  }

  lemma FirstUnseen(es: seq<Option<int>>, i: nat, seen: set<int>)
    requires i < |es| && Seen(seen, es, i)
    ensures IsFirst(es, i) <==> es[i].Some? && es[i].value !in seen
    ensures Seen(if es[i].Some? then seen + {es[i].value} else seen, es, i + 1)
  {
    if es[i].Some? {
      var rank: int := es[i].value;
      if rank in seen {
        var k :| 0 <= k < i && es[k] == Some(rank);
      }
    }
  }

  lemma OneLine(key: string, value: string)
    ensures Payload([(key, value)]) == key + "=" + value + "\n" + [0 as char]
  {
    var es := [(key, value)];
    assert es[1..] == [] && Lines([]) == "";
    assert Lines(es) == Line(es[0]) + "\n" + "" == key + "=" + value + "\n";
  }

  function UploadRequest(r: string, v: string, c: string): string { Payload([("R", r), ("V", v), ("C", c)]) }

  lemma ListsRead(r: string, v: string, c: string)
    requires Stable(r) && Stable(v) && Stable(c) && Unseparated(r) && Unseparated(v) && Unseparated(c)
    ensures Field(UploadRequest(r, v, c), "R") == r && Field(UploadRequest(r, v, c), "V") == v && Field(UploadRequest(r, v, c), "C") == c
  {
    var es := [("R", r), ("V", v), ("C", c)];
    assert Printed(es) && DistinctKeys(es);
    StableReads(r);
    StableReads(v);
    StableReads(c);
    hide FieldValue; hide Payload; hide Printed; hide DistinctKeys; hide Stable; hide Reading; hide Unseparated;
    PrintedReads(es, 0);
    PrintedReads(es, 1);
    PrintedReads(es, 2);
  }

  /** A list that survives being joined and sent. */
  predicate Sendable(list: seq<string>)
  {
    list != [] && (forall i :: 0 <= i < |list| ==> ',' !in list[i]) && Stable(JoinCommas(list)) && Unseparated(JoinCommas(list))
  }

  /** A client's upload is read back: ranks from R, values from V and cars from C. */
  lemma UploadRead(u: Upload)
    requires Sendable(u.ranks) && Sendable(u.values) && Sendable(u.cars)
    ensures RequestUpload(UploadRequest(JoinCommas(u.ranks), JoinCommas(u.values), JoinCommas(u.cars))) == u
  {
    hide SplitCommas; hide JoinCommas; hide FieldValue; hide Stable; hide Unseparated; hide UploadRequest; hide Field;
    SplitJoin(u.ranks);
    SplitJoin(u.values);
    SplitJoin(u.cars);
    ListsRead(JoinCommas(u.ranks), JoinCommas(u.values), JoinCommas(u.cars));
  }

  /** What is accepted: exactly the entries that stand in all three lists, with a rank of 0 to 127, a 64-bit
      value and a car that is more than white space. */
  lemma AcceptedExactly(u: Upload, i: nat, rank: int)
    ensures i < u.Size() <==> i < |u.ranks| && i < |u.values| && i < |u.cars|
    ensures i < u.Size() ==>
              var value := Parse(Trim(u.values[i], IsSpace));
              (u.Accepted(i) == Some(rank)
               <==> Parse(Trim(u.ranks[i], IsSpace)) == Some(rank) && 0 <= rank <= 127
                    && value.Some? && -9223372036854775808 <= value.value <= 9223372036854775807
                    && exists c <- u.cars[i] :: !IsSpace(c))
  {
    if i < u.Size() {
      hide Parse;
      SignsAndWidths(0, Trim(u.ranks[i], IsSpace));
      SignsAndWidths(0, Trim(u.values[i], IsSpace));
      BlankExactly(u.cars[i]);
    }
  }

  lemma BlankExactly(car: string)
    ensures Trim(car, IsSpace) == "" <==> forall c <- car :: IsSpace(c)
  {
    var left, right := TrimWraps(car, IsSpace);
    var core := Trim(car, IsSpace);
    if core != "" {
      assert core[0] in car && !IsSpace(core[0]);
    }
  }

  // ----- the list -----

  /** The list holds exactly the ranks of accepted entries, each once. */
  lemma {:induction false} ValidMembers(es: seq<Option<int>>)
    ensures forall rank :: rank in Valid(es) <==> Some(rank) in es
    ensures NoRepeats(Valid(es))
  {
    if es != [] {
      var n := |es| - 1;
      ValidMembers(es[..n]);
      assert es == es[..n] + [es[n]];
    }
  }

  /** Every listed rank has a first accepted entry, and the list is in the order of those entries. */
  lemma {:induction false} ValidInOrder(es: seq<Option<int>>, a: nat, b: nat) returns (i: nat, j: nat)
    requires a < b < |Valid(es)|
    ensures i < j < |es| && IsFirst(es, i) && IsFirst(es, j) && es[i] == Some(Valid(es)[a]) && es[j] == Some(Valid(es)[b])
  {
    var init := es[..|es| - 1];
    if b < |Valid(init)| {
      i, j := ValidInOrder(init, a, b);
      assert init[..i] == es[..i] && init[..j] == es[..j];
    } else {
      j := |es| - 1;
      i := FirstEntry(init, a);
      assert init[..i] == es[..i];
    }
  }

  lemma {:induction false} FirstEntry(es: seq<Option<int>>, a: nat) returns (i: nat)
    requires a < |Valid(es)|
    ensures i < |es| && IsFirst(es, i) && es[i] == Some(Valid(es)[a])
  {
    var init := es[..|es| - 1];
    if a < |Valid(init)| {
      i := FirstEntry(init, a);
      assert init[..i] == es[..i];
    } else {
      i := |es| - 1;
    }
  }

  /** Numbers below `n` without repeats: at most `n` of them. */
  lemma {:induction false} Pigeonhole(xs: seq<int>, n: nat)
    requires NoRepeats(xs) && forall x <- xs :: 0 <= x < n
    ensures |xs| <= n
  {
    if xs == [] {
      return;
    }
    assert xs[0] in xs;
    if n - 1 in xs {
      var k :| 0 <= k < |xs| && xs[k] == n - 1;
      var rest := xs[..k] + xs[k + 1..];
      forall x | x in rest
        ensures 0 <= x < n - 1
      {
        var m :| 0 <= m < |rest| && rest[m] == x;
        var m' := if m < k then m else m + 1;
        assert x == xs[m'] && m' != k && xs[m'] in xs;
        assert xs[m'] != xs[k];
      }
      Pigeonhole(rest, n - 1);
    } else {
      Pigeonhole(xs, n - 1);
    }
  }

  /** At most 128 ranks, each below 128: they fit the mask. */
  lemma ValidFitsMask(u: Upload)
    ensures |Valid(u.Entries())| <= 128 && forall rank <- Valid(u.Entries()) :: 0 <= rank < 128
  {
    var es := u.Entries();
    ValidMembers(es);
    forall rank | rank in Valid(es)
      ensures 0 <= rank < 128
    {
      assert Some(rank) in es;
      var i :| 0 <= i < |es| && es[i] == Some(rank);
      assert u.Accepted(i) == Some(rank);
    }
    Pigeonhole(Valid(es), 128);
  }

  // ----- resubmission -----

  /** Accepted entries without repeats are all listed. */
  lemma {:induction false} AllListed(es: seq<Option<int>>, ranks: seq<int>)
    requires |es| == |ranks| && NoRepeats(ranks) && forall i :: 0 <= i < |es| ==> es[i] == Some(ranks[i])
    ensures Valid(es) == ranks
  {
    if es != [] {
      var n := |es| - 1;
      AllListed(es[..n], ranks[..n]);
      assert IsFirst(es, n);
      assert ranks == ranks[..n] + [ranks[n]];
    }
  }

  lemma PrintedRank(rank: int)
    requires 0 <= rank < 128
    ensures ',' !in Print(rank) && ParseInt(Trim(Print(rank), IsSpace), LIMIT64) == Some(rank)
  {
    ParsePrint(rank);
    ParsedChars(Print(rank));
    NumeralStable(Print(rank));
    TrimBare(Print(rank), IsSpace);
  }

  predicate ListChar(c: char) { NumeralChar(c) || c == ',' }

  lemma {:induction false} ListChars(xs: seq<string>)
    requires forall i :: 0 <= i < |xs| ==> forall c <- xs[i] :: NumeralChar(c)
    ensures forall c <- JoinCommas(xs) :: ListChar(c)
  {
    if |xs| > 1 {
      ListChars(xs[1..]);
    }
  }

  /** The response's list reads back as printed. */
  lemma ResponseReads(ranks: seq<int>)
    ensures Field(Response(ranks), "VALID") == JoinCommas(PrintAll(ranks))
  {
    hide Print; hide Payload;
    var list := JoinCommas(PrintAll(ranks));
    forall i | 0 <= i < |ranks|
      ensures forall c <- PrintAll(ranks)[i] :: NumeralChar(c)
    {
      ParsePrint(ranks[i]);
      ParsedChars(Print(ranks[i]));
    }
    ListChars(PrintAll(ranks));
    assert Stable(list) by {
      assert list != "" ==> list[0] in list && list[|list| - 1] in list;
    }
    StableReads(list);
    OneLineReads(("VALID", list), "VALID");
  }

  /** What a resubmission must bring: the returned list as R, and good values and cars beside it. */
  predicate Resubmits(v: Upload, list: string, count: nat)
  {
    v.ranks == SplitCommas(list) && |v.values| >= count && |v.cars| >= count
    && forall i :: 0 <= i < count ==> ParseInt(Trim(v.values[i], IsSpace), LIMIT64).Some? && Trim(v.cars[i], IsSpace) != ""
  }

  lemma ResubmittedEntries(v: Upload, ranks: seq<int>)
    requires ranks != [] && (forall rank <- ranks :: 0 <= rank < 128) && NoRepeats(ranks)
    requires Resubmits(v, JoinCommas(PrintAll(ranks)), |ranks|)
    ensures Valid(v.Entries()) == ranks
  {
    hide Print; hide Valid; hide ParseInt; hide Trim; hide SplitCommas;
    forall i | 0 <= i < |ranks|
      ensures ',' !in PrintAll(ranks)[i] && ParseInt(Trim(PrintAll(ranks)[i], IsSpace), LIMIT64) == Some(ranks[i])
    {
      assert ranks[i] in ranks;
      PrintedRank(ranks[i]);
    }
    SplitJoin(PrintAll(ranks));
    assert v.ranks == PrintAll(ranks) && v.Size() == |ranks|;
    forall i | 0 <= i < |ranks|
      ensures v.Entries()[i] == Some(ranks[i])
    {
      assert ranks[i] in ranks;
    }
    AllListed(v.Entries(), ranks);
  }

  lemma NothingResubmitted(v: Upload)
    requires v.ranks == [""]
    ensures Valid(v.Entries()) == []
  {
    hide ParseInt;
    var es := v.Entries();
    assert Trim("", IsSpace) == "" && ParseInt("", LIMIT64) == None by { EmptyRank(); }
    if es != [] {
      assert |es| == 1 && es[0] == v.Accepted(0) == None;
      assert es[..0] == [];
    }
  }

  lemma EmptyRank()
    ensures Trim("", IsSpace) == "" && ParseInt("", LIMIT64) == None
  {
  }

  /** Resubmitting the accepted list is answered by the same list. */
  lemma ResubmissionIsStable(request: string, again: string)
    requires Resubmits(RequestUpload(again), Field(RoadRuleUpload(request), "VALID"), |Valid(RequestUpload(request).Entries())|)
    ensures RoadRuleUpload(again) == RoadRuleUpload(request)
  {
    hide Valid; hide Response; hide SplitCommas; hide Field;
    var ranks := Valid(RequestUpload(request).Entries());
    ValidMembers(RequestUpload(request).Entries());
    ValidFitsMask(RequestUpload(request));
    ResponseReads(ranks);
    if ranks == [] {
      assert SplitCommas("") == [""] by { EmptySplit(); }
      NothingResubmitted(RequestUpload(again));
    } else {
      ResubmittedEntries(RequestUpload(again), ranks);
    }
  }

  lemma EmptySplit()
    ensures SplitCommas("") == [""]
  {
  }
}
