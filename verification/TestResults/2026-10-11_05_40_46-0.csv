TestResult.DisplayName,TestResult.Outcome,TestResult.Duration,TestResult.ResourceCount,RandomSeed
Rdb.EmitSplit (correctness),Passed,00:00:00.5616402,1657927,5
Rdb.EmitSplit (well-formedness),Passed,00:00:00.0880729,38605,5
