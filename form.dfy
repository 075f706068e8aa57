/**
 * The contact form's submit handler: every input and textarea of the form is
 * checked, its "error" class set or cleared, and an overall verdict folded.
 */
module FormValidation {
  import opened Text
  import opened Email

  /**
   * One form control: its current value, whether its `type` is "email", and
   * whether its class list holds "error".
   */
  datatype Field = Field(value: string, isEmail: bool, error: bool)

  /**
   * A field is rejected when its trimmed value is empty, or when it is an
   * e-mail field whose value (untrimmed) fails the e-mail check.
   */
  predicate Rejected(f: Field)
  {
    Trim(f.value) == [] || (f.isEmail && !IsEmail(f.value))
  }

  /** The fields after a submit: each error flag recomputed, nothing else touched. */
  function Validated(fs: seq<Field>): (r: seq<Field>)
    ensures |r| == |fs|
    ensures forall k | 0 <= k < |fs| ::
      r[k].value == fs[k].value && r[k].isEmail == fs[k].isEmail && r[k].error == Rejected(fs[k])
  {
    seq(|fs|, k requires 0 <= k < |fs| => fs[k].(error := Rejected(fs[k])))
  }

  /**
   * The submit handler. Walks the fields in order; for each, first sets or
   * clears "error" on emptiness after trimming, then, for an e-mail field
   * whose value fails the check, sets "error" again. `isValid` starts true
   * and is cleared by every rejection.
   */
  method Submit(fields: array<Field>) returns (isValid: bool)
    modifies fields
    ensures fields[..] == Validated(old(fields[..]))
    ensures isValid <==> forall k | 0 <= k < fields.Length :: !fields[k].error
  {
    isValid := true;
    var i := 0;
    while i < fields.Length
      invariant 0 <= i <= fields.Length
      invariant forall k | 0 <= k < i :: fields[k] == old(fields[k]).(error := Rejected(old(fields[k])))
      invariant forall k | i <= k < fields.Length :: fields[k] == old(fields[k])
      invariant isValid <==> forall k | 0 <= k < i :: !Rejected(old(fields[k]))
    {
      var input := fields[i];
      if Trim(input.value) == [] {
        fields[i] := input.(error := true);
        isValid := false;
      } else {
        fields[i] := input.(error := false);
      }
      if input.isEmail {
        if !IsEmail(input.value) {
          fields[i] := fields[i].(error := true);
          isValid := false;
        }
      }
      assert fields[i] == input.(error := Rejected(input));
      i := i + 1;
    }
    forall k | 0 <= k < fields.Length ensures fields[..][k] == Validated(old(fields[..]))[k] {
      assert old(fields[..])[k] == old(fields[k]);
    }
    assert forall k | 0 <= k < fields.Length :: fields[k].error == Rejected(old(fields[k]));
  }

  /**
   * The flags a submit leaves do not depend on the flags it found: a second
   * submit changes nothing.
   */
  lemma {:induction false} SubmitIdempotent(fs: seq<Field>)
    ensures Validated(Validated(fs)) == Validated(fs)
  {
    var once := Validated(fs);
    forall k | 0 <= k < |fs| ensures Validated(once)[k] == once[k] {
      assert Rejected(once[k]) == Rejected(fs[k]);
    }
  }

  /** The form is valid after a submit exactly when no field was rejected. */
  lemma ValidIffNoneRejected(fs: seq<Field>)
    ensures (forall k | 0 <= k < |fs| :: !Validated(fs)[k].error) <==>
            (forall k | 0 <= k < |fs| :: !Rejected(fs[k]))
  {
    var r := Validated(fs);
    assert forall k | 0 <= k < |fs| :: r[k].error == Rejected(fs[k]);
  }

  /**
   * An empty required field next to a well-formed e-mail field: the first is
   * marked, the second is not, whatever their flags were before.
   */
  lemma EmptyFieldBesideGoodEmail(e1: bool, e2: bool)
    ensures var r := Validated([Field("", false, e1), Field("a@b.c", true, e2)]);
      r[0].error && !r[1].error
  {
    SimpleAddressAccepted();
    assert Trim("a@b.c") != [] by {
      TrimEmptyIffAllSpace("a@b.c");
      assert !IsSpace("a@b.c"[0]);
    }
  }

  /**
   * Whitespace around an otherwise good address is refused by the e-mail
   * check, although trimming would have left a good address: the check sees
   * the untrimmed value. The padding is a NO-BREAK SPACE, which an e-mail
   * input's value sanitization (it strips ASCII whitespace only) leaves in
   * place.
   */
  lemma PaddedEmailRejected(e: bool)
    ensures Validated([Field("\U{00A0}a@b.c", true, e)])[0].error
  {
    assert !NoSpace("\U{00A0}a@b.c") by { assert IsSpace("\U{00A0}a@b.c"[0]); }
  }
}
