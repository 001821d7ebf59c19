/**
 * fta/samples/tables.py: the sample table renders page sizes with its own
 * copy of `humansize`, line for line the same algorithm as the one in
 * fta/samples/utils.py.
 */
module SampleTables {
  import opened SampleUtils

  /**
   * `humansize` in fta/samples/tables.py. Its result is the same as the
   * utils.py function's for every count and every `%.2f` formatter.
   */
  method HumanSize(nbytes: int, format2: real -> string) returns (s: string)
    ensures s == HumanSizeOf(nbytes, format2)
  {
    var value := nbytes as real;
    var i := 0;
    while value >= 1024.0 && i < |Suffixes| - 1
      invariant 0 <= i < |Suffixes|
      invariant value == nbytes as real / Pow1024(i) as real
      invariant i > 0 ==> nbytes >= Pow1024(i)
    {
      ScaledAtLeastUnit(nbytes, i);
      DivideOnce(nbytes as real, i);
      value := value / 1024.0;
      i := i + 1;
    }
    ScaledAtLeastUnit(nbytes, i);
    UnitIndexIsUnique(nbytes, i);
    var f := TrimNumber(format2(value));
    s := f + " " + Suffixes[i];
  }
}
