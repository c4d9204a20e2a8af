/** `struct sigma_cmd` of sigma_dut.h: one parsed command's parameters,
    kept as two parallel fixed arrays of names and values with a count. */
module Command {

  /** `MAX_PARAMS`: the room for name/value pairs in one command. */
  const MAX_PARAMS: nat := 100

  class SigmaCmd {
    const params: array<string>
    const values: array<string>
    var count: int

    /** Both arrays have `MAX_PARAMS` slots, are separate storage, and
        `count` of their slots are in use. */
    ghost predicate Valid()
      reads this
    {
      && params.Length == MAX_PARAMS
      && values.Length == MAX_PARAMS
      && params != values
      && 0 <= count <= MAX_PARAMS
    }

    /** The command's pairs: `params[i]` belongs with `values[i]` for each
        `0 <= i < count`. */
    ghost function Pairs(): (ps: seq<(string, string)>)
      reads this, params, values
      requires Valid()
      ensures |ps| == count <= MAX_PARAMS
      ensures forall i :: 0 <= i < count ==> ps[i] == (params[i], values[i])
    {
      var n := count;
      seq(n, i requires 0 <= i < n reads params, values => (params[i], values[i]))
    }

    /** An empty command. */
    constructor ()
      ensures Valid() && fresh(params) && fresh(values)
      ensures Pairs() == []
    {
      params := new string[MAX_PARAMS](_ => "");
      values := new string[MAX_PARAMS](_ => "");
      count := 0;
    }

    /** Stores one more name/value pair in the next free slot of both
        arrays; a command that already holds `MAX_PARAMS` pairs is left
        as it is and `ok` is false. */
    method AddParam(name: string, value: string) returns (ok: bool)
      requires Valid()
      modifies this`count, params, values
      ensures Valid()
      ensures ok <==> old(count) < MAX_PARAMS
      ensures Pairs() == if ok then old(Pairs()) + [(name, value)] else old(Pairs())
    {
      if count == MAX_PARAMS {
        return false;
      }
      params[count] := name;
      values[count] := value;
      count := count + 1;
      ok := true;
    }

    /** The i-th pair of the command. */
    method ParamAt(i: int) returns (name: string, value: string)
      requires Valid() && 0 <= i < count
      ensures (name, value) == Pairs()[i]
    {
      name := params[i];
      value := values[i];
    }
  }
}
