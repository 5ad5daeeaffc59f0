includes = ["**/*.dfy"]

[options]
manual-lemma-induction = true
