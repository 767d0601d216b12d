/** The shape of the status report SendSwitchesReport builds: one object
    "dipSwitches" whose fields dip1..dip8 carry the switch labels. The bytes
    the JSON library prints for it are not modelled; the report is the
    ordered list of key/value pairs given to the builder. */
module Report {
  import opened Wrappers

  const ObjectName: string := "dipSwitches"

  datatype Field = Field(key: string, value: string)

  datatype SwitchesReport = SwitchesReport(name: string, fields: seq<Field>)

  /** The key of switch k, counting from 1: "dip1" .. "dip8". */
  function DipKey(k: nat): (key: string)
    requires 1 <= k <= 8
  {
    "dip" + [('0' as int + k) as char]
  }

  /** Reads the switch number back out of a key; None for any other key. */
  function KeyIndex(key: string): (k: Option<nat>)
    ensures k.Some? ==> 1 <= k.value <= 8 && DipKey(k.value) == key
  {
    if |key| == 4 && key[..3] == "dip" && '1' <= key[3] <= '8'
    then
      var k := key[3] as int - '0' as int;
      assert DipKey(k) == key[..3] + [key[3]];
      assert key[..3] + [key[3]] == key;
      Some(k)
    else None
  }

  lemma KeyIndexOfDipKey(k: nat)
    requires 1 <= k <= 8
    ensures KeyIndex(DipKey(k)) == Some(k)
  {
    assert DipKey(k)[..3] == "dip";
  }

  /** The value stored under key, taking the first field with that key. */
  function Lookup(fields: seq<Field>, key: string): (v: Option<string>)
    ensures v.Some? <==> exists j :: 0 <= j < |fields| && fields[j].key == key
  {
    if fields == [] then None
    else if fields[0].key == key then Some(fields[0].value)
    else
      var rest := Lookup(fields[1..], key);
      assert forall j :: 1 <= j < |fields| ==> fields[j] == fields[1..][j - 1];
      rest
  }

  /** The report for the eight switch labels states[0..7], one field per
      switch in ascending order. */
  function Build(states: seq<string>): SwitchesReport
    requires |states| == 8
  {
    SwitchesReport(ObjectName, seq(8, k requires 0 <= k < 8 => Field(DipKey(k + 1), states[k])))
  }

  /** The labels a well-shaped report carries, in switch order; None when the
      report is not a "dipSwitches" object with exactly the keys dip1..dip8
      in ascending order. */
  function States(r: SwitchesReport): (states: Option<seq<string>>)
    ensures states.Some? ==> |states.value| == 8
  {
    if r.name == ObjectName && |r.fields| == 8
       && forall k :: 0 <= k < 8 ==> KeyIndex(r.fields[k].key) == Some(k + 1)
    then Some(seq(8, k requires 0 <= k < 8 => r.fields[k].value))
    else None
  }

  /** The report has exactly the keys dip1..dip8, ascending, and field k
      carries states[k]. */
  lemma BuildShape(states: seq<string>)
    requires |states| == 8
    ensures Build(states).name == "dipSwitches"
    ensures |Build(states).fields| == 8
    ensures forall k :: 0 <= k < 8 ==>
      Build(states).fields[k].key == DipKey(k + 1) && Build(states).fields[k].value == states[k]
    ensures forall j, k :: 0 <= j < k < 8 ==>
      KeyIndex(Build(states).fields[j].key).value < KeyIndex(Build(states).fields[k].key).value
  {
    forall k | 1 <= k <= 8 ensures KeyIndex(DipKey(k)) == Some(k) {
      KeyIndexOfDipKey(k);
    }
  }

  /** Build written out field by field, the way the report is assembled. */
  lemma BuildInOrder(states: seq<string>)
    requires |states| == 8
    ensures Build(states) == SwitchesReport("dipSwitches", [
      Field("dip1", states[0]), Field("dip2", states[1]), Field("dip3", states[2]),
      Field("dip4", states[3]), Field("dip5", states[4]), Field("dip6", states[5]),
      Field("dip7", states[6]), Field("dip8", states[7])])
  {
    assert DipKey(1) == "dip1" && DipKey(2) == "dip2" && DipKey(3) == "dip3" && DipKey(4) == "dip4";
    assert DipKey(5) == "dip5" && DipKey(6) == "dip6" && DipKey(7) == "dip7" && DipKey(8) == "dip8";
  }

  /** Lookup finds the first field that carries the key. */
  lemma {:induction false} LookupFirst(fields: seq<Field>, j: nat, key: string)
    requires j < |fields| && fields[j].key == key
    requires forall i :: 0 <= i < j ==> fields[i].key != key
    ensures Lookup(fields, key) == Some(fields[j].value)
  {
    if j > 0 {
      LookupFirst(fields[1..], j - 1, key);
    }
  }

  /** Looking up dipK in the report gives the label of switch K. */
  lemma BuildLookup(states: seq<string>, k: nat)
    requires |states| == 8 && 1 <= k <= 8
    ensures Lookup(Build(states).fields, DipKey(k)) == Some(states[k - 1])
  {
    var fields := Build(states).fields;
    forall i | 0 <= i < k - 1 ensures fields[i].key != DipKey(k) {
      KeyIndexOfDipKey(i + 1);
      KeyIndexOfDipKey(k);
    }
    LookupFirst(fields, k - 1, DipKey(k));
  }

  /** Reading the labels back out of a built report gives the labels it was
      built from, so different switch states give different reports. */
  lemma BuildRoundTrip(states: seq<string>)
    requires |states| == 8
    ensures States(Build(states)) == Some(states)
  {
    BuildShape(states);
    forall k | 0 <= k < 8 ensures KeyIndex(Build(states).fields[k].key) == Some(k + 1) {
      KeyIndexOfDipKey(k + 1);
    }
    var r := Build(states);
    assert seq(8, k requires 0 <= k < 8 => r.fields[k].value) == states;
  }
}
