/** Optional values: the model's stand-in for the source's error returns and
    exceptions (an invalid day, a line `std::stoi` rejects). */
module Options {

  datatype Option<+T> = None | Some(value: T)
}
