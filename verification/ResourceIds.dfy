/** The gate every registered resource id passes through. */
module ResourceIds {
  import opened GoStrings
  import opened Tables

  const PREFIX := "urc-"

  predicate AllHex(s: string) {
    forall c | c in s :: HexChar(c)
  }

  /** None for anything but 32 hex digits, with or without the prefix, in any case and padding. */
  function NormalizeResourceId(input: string): (r: Option<string>)
    ensures r.Some? ==> Canonical(r.value)
  {
    var s := TrimPrefix(ToLower(TrimSpace(input)), PREFIX);
    if |s| != 32 || !AllHex(s) then None else Some(PREFIX + s)
  }

  lemma CanonicalIsTrimmed(id: string)
    requires Canonical(id)
    ensures TrimSpace(id) == id && id != "" && ToLower(id) == id
  {
    forall i | 4 <= i < |id| ensures HexChar(id[i]) {
      assert id[i] == id[4..][i - 4];
    }
    assert id[0] == PREFIX[0] && id[1] == PREFIX[1] && id[2] == PREFIX[2] && id[3] == PREFIX[3] by {
      assert id[..4] == PREFIX;
      assert id[0] == id[..4][0] && id[1] == id[..4][1] && id[2] == id[..4][2] && id[3] == id[..4][3];
    }
    TrimSpaceTrims(id);
  }

  /** The canonical ids are exactly the fixed points, and exactly the results. */
  lemma NormalizeIsIdempotent(input: string)
    ensures Canonical(input) <==> NormalizeResourceId(input) == Some(input)
    ensures NormalizeResourceId(input).Some?
            ==> NormalizeResourceId(NormalizeResourceId(input).value) == NormalizeResourceId(input)
  {
    CanonicalIsFixed(input);
    if NormalizeResourceId(input).Some? {
      CanonicalIsFixed(NormalizeResourceId(input).value);
    }
  }

  lemma CanonicalIsFixed(id: string)
    ensures Canonical(id) ==> NormalizeResourceId(id) == Some(id)
  {
    if Canonical(id) {
      CanonicalIsTrimmed(id);
      assert id == PREFIX + id[4..];
    }
  }
}
