/** Option and Result types shared by the pipeline modules. */
module Wrappers {

  datatype Option<+T> = None | Some(value: T)

  /**
   * Why an analysis stops without results: the DOF table is empty, so it has
   * no largest entry to size the matrices by, or the linear solve gave no answer.
   */
  datatype AnalysisError = NoElements | SingularSystem

  datatype Result<+T> = Ok(value: T) | Err(error: AnalysisError)
}
