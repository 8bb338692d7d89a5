/** The column names that the filtering logic of both front ends reads. */
module Schema {
  const CancerType: string := "Cancer Type"
  const BiomarkerCategory: string := "Biomarker Category"
  const TestingMethod: string := "Testing Method"

  /** The three columns the dashboard insists on, in the order it lists them. */
  const Required: seq<string> := [CancerType, BiomarkerCategory, TestingMethod]
}
