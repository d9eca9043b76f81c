TestResult.DisplayName,TestResult.Outcome,TestResult.Duration,TestResult.ResourceCount,RandomSeed
Rdb.EmitSplit (correctness),Passed,00:00:00.2457064,664926,2
Rdb.EmitSplit (well-formedness),Passed,00:00:00.0944573,38608,2
