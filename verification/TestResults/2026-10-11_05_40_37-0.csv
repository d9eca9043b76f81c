TestResult.DisplayName,TestResult.Outcome,TestResult.Duration,TestResult.ResourceCount,RandomSeed
Rdb.EmitSplit (correctness),Passed,00:00:00.2508810,697159,0
Rdb.EmitSplit (well-formedness),Passed,00:00:00.0944837,38612,0
