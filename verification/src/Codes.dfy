/** The nginx return codes the module's decisions are made of. */
module Codes {
  datatype Code = Ok | Declined | Error | Abort | SeeOther
}
