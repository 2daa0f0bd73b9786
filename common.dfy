/** Types shared by the schema cache model: optional values, COM result codes
    and the VARIANT shapes that `add` accepts. */
module Common {

  datatype Option<+T> = None | Some(value: T)

  /** The COM result codes the schema collection returns. */
  datatype HResult = S_OK | E_FAIL | E_POINTER | E_INVALIDARG

  /** VARTYPE tags of the three source shapes `add` dispatches on. */
  const VT_NULL: nat := 1
  const VT_BSTR: nat := 8
  const VT_DISPATCH: nat := 9
}
